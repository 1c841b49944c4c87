// DEFLATE from the compressor's side (sections 3.2.3 to 3.2.7 of RFC 1951): how
// blocks are written as bits, and what they stand for.  No table and no rule is
// taken over from the decoder.
module Deflate {
  import opened Bits
  import opened Canonical

  // ---- Tokens -------------------------------------------------------------------

  datatype Token = Literal(b: byte) | Match(len: nat, dist: nat)

  /** The `len` bytes from `dist` back; a match longer than its distance starts over. */
  function Repeated(out: seq<byte>, len: nat, dist: nat): (r: seq<byte>)
    requires 1 <= dist <= |out|
    ensures |r| == len
  {
    seq(len, i requires 0 <= i < len => out[|out| - dist + i % dist])
  }

  predicate Fits(out: seq<byte>, t: Token)
  {
    t.Match? ==> 3 <= t.len <= 258 && 1 <= t.dist <= 32768 && t.dist <= |out|
  }

  /** The output after one more token. */
  function Says(out: seq<byte>, t: Token): seq<byte>
    requires Fits(out, t)
  {
    match t
    case Literal(b) => out + [b]
    case Match(len, dist) => out + Repeated(out, len, dist)
  }

  ghost predicate AllFit(out: seq<byte>, ts: seq<Token>)
    decreases |ts|
  {
    ts != [] ==> Fits(out, ts[0]) && AllFit(Says(out, ts[0]), ts[1..])
  }

  ghost function AllSay(out: seq<byte>, ts: seq<Token>): seq<byte>
    requires AllFit(out, ts)
    decreases |ts|
  {
    if ts == [] then out else AllSay(Says(out, ts[0]), ts[1..])
  }

  // ---- Symbols ------------------------------------------------------------------

  /** The k-bit number n, most significant bit first: section 3.1.1 for code words. */
  function WordBits(n: nat, k: nat): (s: seq<bool>)
    ensures |s| == k
  {
    if k == 0 then [] else WordBits(n / 2, k - 1) + [n % 2 == 1]
  }

  /** A symbol and its extra bits. */
  datatype Code = Code(sym: nat, extra: nat, k: nat)

  function Log2(x: nat): nat
  {
    if x < 2 then 0 else 1 + Log2(x / 2)
  }

  /** The number without its low e bits, and these. */
  function Upper(x: nat, e: nat): nat
  {
    DivModIs(x, Pow2(e));
    x / Pow2(e)
  }

  function Lower(x: nat, e: nat): nat
  {
    x % Pow2(e)
  }

  /** Section 3.2.5: four symbols to each number of extra bits, but for the last length. */
  function LengthCode(len: nat): Code
    requires 3 <= len <= 258
  {
    var x := len - 3;
    if len == 258 then Code(285, 0, 0)
    else if x < 4 then Code(257 + x, 0, 0)
    else
      assert Log2(x / 2) >= 1;
      var e := Log2(x) - 2;
      Code(257 + 4 * e + Upper(x, e), Lower(x, e), e)
  }

  /** Section 3.2.5: two symbols to each number of extra bits. */
  function DistanceCode(dist: nat): Code
    requires 1 <= dist
  {
    var y := dist - 1;
    if y < 2 then Code(y, 0, 0)
    else
      var e := Log2(y) - 1;
      Code(2 * e + Upper(y, e), Lower(y, e), e)
  }

  /** The code word of each symbol. */
  type Book = nat -> seq<bool>

  function CodeBits(w: Book, c: Code): seq<bool>
  {
    w(c.sym) + ToBits(c.extra, c.k)
  }

  function TokenBits(wl: Book, wd: Book, t: Token): seq<bool>
    requires t.Match? ==> 3 <= t.len <= 258 && 1 <= t.dist
  {
    match t
    case Literal(b) => wl(b)
    case Match(len, dist) => CodeBits(wl, LengthCode(len)) + CodeBits(wd, DistanceCode(dist))
  }

  /** The tokens, and the end of the block. */
  ghost function TokensBits(wl: Book, wd: Book, out: seq<byte>, ts: seq<Token>): seq<bool>
    requires AllFit(out, ts)
    decreases |ts|
  {
    if ts == [] then wl(256) else TokenBits(wl, wd, ts[0]) + TokensBits(wl, wd, Says(out, ts[0]), ts[1..])
  }

  /** Section 3.2.6: the fixed code words. */
  function FixedLiteral(sym: nat): seq<bool>
  {
    if sym < 144 then WordBits(0x30 + sym, 8)
    else if sym < 256 then WordBits(0x190 + (sym - 144), 9)
    else if sym < 280 then WordBits(sym - 256, 7)
    else WordBits(0xC0 + (sym - 280), 8)
  }

  function FixedDistance(sym: nat): seq<bool>
  {
    WordBits(sym, 5)
  }

  /** Section 3.2.2: the code words of a list of lengths. */
  function BookOf(lens: seq<nat>): Book
  {
    (sym: nat) => if sym < |lens| && lens[sym] <= BMAX then WordBits(CodeOf(lens, sym), lens[sym]) else []
  }

  // ---- Dynamic trees: section 3.2.7 -----------------------------------------------

  /** A code length; the last one again; zeros. */
  datatype Run = One(x: nat) | Again(n: nat) | None(n: nat)

  function Times(x: nat, n: nat): (r: seq<nat>)
    ensures |r| == n && forall i :: 0 <= i < n ==> r[i] == x
  {
    seq(n, _ => x)
  }

  function Last(acc: seq<nat>): nat
  {
    if acc == [] then 0 else acc[|acc| - 1]
  }

  function RunSays(acc: seq<nat>, r: Run): seq<nat>
  {
    match r
    case One(x) => acc + [x]
    case Again(n) => acc + Times(Last(acc), n)
    case None(n) => acc + Times(0, n)
  }

  predicate RunFits(r: Run)
  {
    match r
    case One(x) => x < 16
    case Again(n) => 3 <= n <= 6
    case None(n) => 3 <= n <= 138
  }

  /** The code length symbol of a run and its extra bits. */
  function RunCode(r: Run): Code
    requires RunFits(r)
  {
    match r
    case One(x) => Code(x, 0, 0)
    case Again(n) => Code(16, n - 3, 2)
    case None(n) => if n <= 10 then Code(17, n - 3, 3) else Code(18, n - 11, 7)
  }

  ghost predicate RunsFit(rs: seq<Run>) { forall i :: 0 <= i < |rs| ==> RunFits(rs[i]) }

  function RunsSay(acc: seq<nat>, rs: seq<Run>): seq<nat>
    decreases |rs|
  {
    if rs == [] then acc else RunsSay(RunSays(acc, rs[0]), rs[1..])
  }

  ghost function RunsBits(w: Book, rs: seq<Run>): seq<bool>
    requires RunsFit(rs)
    decreases |rs|
  {
    if rs == [] then [] else CodeBits(w, RunCode(rs[0])) + RunsBits(w, rs[1..])
  }

  /** The order in which the lengths of the code length code are sent: 16, 17, 18, 0, and from 8 on outwards. */
  function Order(j: nat): nat
    requires j < 19
  {
    if j < 3 then 16 + j else if j == 3 then 0 else if j % 2 == 0 then 6 + j / 2 else (19 - j) / 2
  }

  function OrderBits(bl: seq<nat>, j: nat, nb: nat): seq<bool>
    requires |bl| == 19 && j <= nb <= 19
    decreases nb - j
  {
    if j == nb then []
    else
      OrderInRange(j);
      ToBits(bl[Order(j)], 3) + OrderBits(bl, j + 1, nb)
  }

  lemma OrderInRange(j: nat)
    requires j < 19
    ensures Order(j) < 19
  {
  }

  /** Both code length lists, the code length code, how many of its lengths are sent, and the runs. */
  datatype Trees = Trees(lit: seq<nat>, dist: seq<nat>, bl: seq<nat>, nb: nat, runs: seq<Run>)

  /** A complete code, or at most one code of one bit, or none. */
  ghost predicate Usable(lens: seq<nat>)
  {
    && ValidLengths(lens)
    && (KraftSum(lens) == Pow2(BMAX) ||
        (KraftSum(lens) < Pow2(BMAX) && forall i :: 0 <= i < |lens| ==> lens[i] <= 1))
  }

  /** More code words than there is room for. */
  ghost predicate OverFull(lens: seq<nat>)
    requires ValidLengths(lens)
  {
    KraftSum(lens) > Pow2(BMAX)
  }

  ghost predicate Has(lens: seq<nat>, sym: nat)
  {
    sym < |lens| && lens[sym] > 0
  }

  /** The lists can be sent, whatever codes they describe. */
  ghost predicate ListsFit(h: Trees)
  {
    && 257 <= |h.lit| <= 286 && 1 <= |h.dist| <= 30 && ValidLengths(h.lit) && ValidLengths(h.dist)
    && |h.bl| == 19 && (forall i :: 0 <= i < 19 ==> h.bl[i] < 8) && Usable(h.bl)
    && 4 <= h.nb <= 19 && (forall j :: h.nb <= j < 19 ==> Order(j) < 19 && h.bl[Order(j)] == 0)
    && RunsFit(h.runs) && RunsSay([], h.runs) == h.lit + h.dist
    && forall i :: 0 <= i < |h.runs| ==> Has(h.bl, RunCode(h.runs[i]).sym)
  }

  ghost predicate TreesFit(h: Trees)
  {
    ListsFit(h) && Usable(h.lit) && Usable(h.dist) && Has(h.lit, 256)
  }

  ghost function TreesBits(h: Trees): seq<bool>
    requires ListsFit(h)
  {
    ToBits(|h.lit| - 257, 5) + ToBits(|h.dist| - 1, 5) + ToBits(h.nb - 4, 4)
    + OrderBits(h.bl, 0, h.nb) + RunsBits(BookOf(h.bl), h.runs)
  }

  /** Every symbol that a token needs has a code word. */
  ghost predicate Spoken(lit: seq<nat>, dist: seq<nat>, ts: seq<Token>)
  {
    forall i :: 0 <= i < |ts| ==> TokenSpoken(lit, dist, ts[i])
  }

  ghost predicate TokenSpoken(lit: seq<nat>, dist: seq<nat>, t: Token)
  {
    match t
    case Literal(b) => Has(lit, b)
    case Match(len, d) =>
      3 <= len <= 258 && 1 <= d && Has(lit, LengthCode(len).sym) && Has(dist, DistanceCode(d).sym)
  }

  // ---- Blocks -----------------------------------------------------------------------

  datatype Block =
    | Stored(pad: seq<bool>, s: seq<byte>)
    | Fixed(ts: seq<Token>)
    | Dynamic(h: Trees, ts: seq<Token>)

  /** What a block needs that starts at bit `pos` of the stream, after `out`. */
  ghost predicate BlockFits(out: seq<byte>, pos: nat, b: Block)
  {
    match b
    case Stored(pad, s) => |s| <= 0xffff && |pad| < 8 && (pos + 3 + |pad|) % 8 == 0
    case Fixed(ts) => AllFit(out, ts)
    case Dynamic(h, ts) => AllFit(out, ts) && TreesFit(h) && Spoken(h.lit, h.dist, ts)
  }

  ghost function BlockSays(out: seq<byte>, pos: nat, b: Block): seq<byte>
    requires BlockFits(out, pos, b)
  {
    match b
    case Stored(_, s) => out + s
    case Fixed(ts) => AllSay(out, ts)
    case Dynamic(_, ts) => AllSay(out, ts)
  }

  /** A block without its first bit: the type, low bit first, and what follows it. */
  ghost function BlockBits(out: seq<byte>, pos: nat, b: Block): seq<bool>
    requires BlockFits(out, pos, b)
  {
    match b
    case Stored(pad, s) => [false, false] + pad + ToBits(|s|, 16) + ToBits(0xffff - |s|, 16) + BytesBits(s)
    case Fixed(ts) => [true, false] + TokensBits(FixedLiteral, FixedDistance, out, ts)
    case Dynamic(h, ts) => [false, true] + TreesBits(h) + TokensBits(BookOf(h.lit), BookOf(h.dist), out, ts)
  }

  /** Only the last block has its first bit set. */
  ghost predicate StreamFits(out: seq<byte>, pos: nat, bs: seq<Block>)
    decreases |bs|
  {
    && bs != [] && BlockFits(out, pos, bs[0])
    && (|bs| > 1 ==>
          StreamFits(BlockSays(out, pos, bs[0]), pos + 1 + |BlockBits(out, pos, bs[0])|, bs[1..]))
  }

  ghost function StreamSays(out: seq<byte>, pos: nat, bs: seq<Block>): seq<byte>
    requires StreamFits(out, pos, bs)
    decreases |bs|
  {
    hide BlockSays, BlockBits, BlockFits;
    var o := BlockSays(out, pos, bs[0]);
    if |bs| == 1 then o else StreamSays(o, pos + 1 + |BlockBits(out, pos, bs[0])|, bs[1..])
  }

  ghost function StreamBits(out: seq<byte>, pos: nat, bs: seq<Block>): seq<bool>
    requires StreamFits(out, pos, bs)
    decreases |bs|
  {
    hide BlockSays, BlockBits, BlockFits;
    var b := BlockBits(out, pos, bs[0]);
    if |bs| == 1 then [true] + b
    else [false] + b + StreamBits(BlockSays(out, pos, bs[0]), pos + 1 + |b|, bs[1..])
  }
}
