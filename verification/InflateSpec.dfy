// What a DEFLATE stream means (RFC 1951, sections 3.1.1 and 3.2), as a decoder
// that reads a flat bit string one bit at a time and appends to an unbounded
// output.  Where boot/zBoot/inflate.c settles a point the standard leaves open,
// this follows the code.
module InflateSpec {
  import opened Bits
  import opened Canonical

  /**
   * `Err` is the code's error return, `Halt` its error() call on an incomplete
   * tree, `Short` the end of the input, and `Undefined` a read of memory that
   * was never written.
   */
  datatype Result<+T> =
    | Ok(value: T, rest: seq<bool>)
    | Err(code: nat)
    | Halt
    | Short
    | Undefined

  // ---- Constants: lines 49-65 (section 3.2.5 and 3.2.7) ---------------------

  const BORDER: seq<nat> := [16, 17, 18, 0, 8, 7, 9, 6, 10, 5, 11, 4, 12, 3, 13, 2, 14, 1, 15]

  const CPLENS: seq<nat> := [
    3, 4, 5, 6, 7, 8, 9, 10, 11, 13, 15, 17, 19, 23, 27, 31,
    35, 43, 51, 59, 67, 83, 99, 115, 131, 163, 195, 227, 258, 0, 0]

  const CPLEXT: seq<nat> := [
    0, 0, 0, 0, 0, 0, 0, 0, 1, 1, 1, 1, 2, 2, 2, 2,
    3, 3, 3, 3, 4, 4, 4, 4, 5, 5, 5, 5, 0, 99, 99]

  const CPDIST: seq<nat> := [
    1, 2, 3, 4, 5, 7, 9, 13, 17, 25, 33, 49, 65, 97, 129, 193,
    257, 385, 513, 769, 1025, 1537, 2049, 3073, 4097, 6145,
    8193, 12289, 16385, 24577]

  const CPDEXT: seq<nat> := [
    0, 0, 0, 0, 1, 1, 2, 2, 3, 3, 4, 4, 5, 5, 6, 6,
    7, 7, 8, 8, 9, 9, 10, 10, 11, 11,
    12, 12, 13, 13]

  // ---- Symbols ----------------------------------------------------------------

  /** One symbol.  A bit pattern outside an incomplete code is an error only if every symbol is coded. */
  ghost function ReadSymbol(lens: seq<nat>, bits: seq<bool>): (r: Result<nat>)
    requires ValidLengths(lens)
    ensures r.Ok? ==> |r.rest| < |bits| && r.value < |lens|
  {
    match Decode(lens, bits)
    case Symbol(sym, k) => DecodedInRange(lens, bits, 1); Ok(sym, bits[k..])
    case TooShort => Short
    case NoSuchCode => if CountOf(lens, 0) == 0 then Err(1) else Undefined
  }

  lemma {:induction false} DecodedInRange(lens: seq<nat>, bits: seq<bool>, j: nat)
    requires ValidLengths(lens) && 1 <= j && DecodeFrom(lens, bits, j).Symbol?
    ensures DecodeFrom(lens, bits, j).sym < |lens| && 1 <= DecodeFrom(lens, bits, j).len <= |bits|
    decreases BMAX + 1 - j
  {
    if !exists sym: nat :: IsWordOf(lens, sym, bits[..j]) {
      DecodedInRange(lens, bits, j + 1);
    }
  }

  // ---- Compressed blocks: section 3.2.3 ----------------------------------------

  /** Append `len` bytes, each the byte `dist` places back. */
  function CopyMatch(out: seq<byte>, len: nat, dist: nat): (r: seq<byte>)
    requires 1 <= dist <= |out|
    ensures |r| == |out| + len
    decreases len
  {
    if len == 0 then out else CopyMatch(out + [out[|out| - dist]], len - 1, dist)
  }

  ghost predicate GoodTrees(lit: seq<nat>, dist: seq<nat>)
  {
    ValidLengths(lit) && ValidLengths(dist) && |lit| <= 288 && |dist| <= 30
  }

  ghost function InflateCodes(lit: seq<nat>, dist: seq<nat>, out: seq<byte>, bits: seq<bool>): (r: Result<seq<byte>>)
    requires GoodTrees(lit, dist)
    ensures r.Ok? ==> |r.rest| <= |bits|
    decreases |bits|, 0
  {
    match ReadSymbol(lit, bits)
    case Err(c) => Err(c)
    case Halt => Halt
    case Short => Short
    case Undefined => Undefined
    case Ok(sym, r1) =>
      if sym < 256 then InflateCodes(lit, dist, out + [sym], r1)
      else if sym == 256 then Ok(out, r1)
      else if sym >= 286 then Err(1)
      else InflateMatch(lit, dist, out, sym - 257, r1)
  }

  /** The length's extra bits. */
  ghost function InflateMatch(lit: seq<nat>, dist: seq<nat>, out: seq<byte>, i: nat,
      bits: seq<bool>): (r: Result<seq<byte>>)
    requires GoodTrees(lit, dist) && i < 29
    ensures r.Ok? ==> |r.rest| <= |bits|
    decreases |bits|, 3
  {
    if |bits| < CPLEXT[i] then Short
    else InflateDistance(lit, dist, out, CPLENS[i] + Lsb(bits[..CPLEXT[i]]), bits[CPLEXT[i]..])
  }

  /** The distance symbol. */
  ghost function InflateDistance(lit: seq<nat>, dist: seq<nat>, out: seq<byte>, len: nat, bits: seq<bool>)
    : (r: Result<seq<byte>>)
    requires GoodTrees(lit, dist)
    ensures r.Ok? ==> |r.rest| <= |bits|
    decreases |bits|, 2
  {
    match ReadSymbol(dist, bits)
    case Err(c) => Err(c)
    case Halt => Halt
    case Short => Short
    case Undefined => Undefined
    case Ok(ds, r1) => InflateCopy(lit, dist, out, len, ds, r1)
  }

  /** The distance's extra bits, and the copy. */
  ghost function InflateCopy(lit: seq<nat>, dist: seq<nat>, out: seq<byte>, len: nat, ds: nat, bits: seq<bool>)
    : (r: Result<seq<byte>>)
    requires GoodTrees(lit, dist) && ds < 30
    ensures r.Ok? ==> |r.rest| <= |bits|
    decreases |bits|, 1
  {
    if |bits| < CPDEXT[ds] then Short
    else
      var d := CPDIST[ds] + Lsb(bits[..CPDEXT[ds]]);
      if d > |out| then Undefined
      else InflateCodes(lit, dist, CopyMatch(out, len, d), bits[CPDEXT[ds]..])
  }

  // ---- Stored blocks: section 3.2.4 --------------------------------------------

  function StoredBytes(n: nat, out: seq<byte>, bits: seq<bool>): (r: Result<seq<byte>>)
    ensures r.Ok? ==> |r.rest| <= |bits|
  {
    if n == 0 then Ok(out, bits)
    else if |bits| < 8 then Short
    else StoredBytes(n - 1, out + [LsbByte(bits[..8])], bits[8..])
  }

  function LsbByte(s: seq<bool>): byte
    requires |s| == 8
  {
    LsbBound(s);
    assert Pow2(8) == 256;
    Lsb(s)
  }

  /** The unread bits end on a byte boundary, so the bits up to the next boundary are |bits| % 8. */
  function InflateStored(out: seq<byte>, bits: seq<bool>): (r: Result<seq<byte>>)
    ensures r.Ok? ==> |r.rest| <= |bits|
  {
    var b := bits[|bits| % 8..];
    if |b| < 32 then Short
    else if Lsb(b[..16]) + Lsb(b[16..32]) != 0xffff then Err(1)
    else StoredBytes(Lsb(b[..16]), out, b[32..])
  }

  // ---- Trees --------------------------------------------------------------------

  /** The return code of huft_build. */
  ghost function TreeCode(lens: seq<nat>): nat
    requires ValidLengths(lens)
  {
    if MaxLength(lens, BMAX) == 0 then 0
    else if KraftSum(lens) > Pow2(BMAX) then 2
    else if KraftSum(lens) < Pow2(BMAX) && MaxLength(lens, BMAX) != 1 then 1
    else 0
  }

  function Repeat(x: nat, n: nat): (r: seq<nat>)
    ensures |r| == n && forall i :: 0 <= i < n ==> r[i] == x
  {
    seq(n, _ => x)
  }

  /** Section 3.2.6. */
  function FixedLiterals(): seq<nat> { Repeat(8, 144) + Repeat(9, 112) + Repeat(7, 24) + Repeat(8, 8) }

  function FixedDistances(): seq<nat> { Repeat(5, 30) }

  ghost function InflateFixed(out: seq<byte>, bits: seq<bool>): (r: Result<seq<byte>>)
    ensures r.Ok? ==> |r.rest| <= |bits|
  {
    InflateCodes(FixedLiterals(), FixedDistances(), out, bits)
  }

  /** The lengths of the code length code, sent in the order BORDER; the rest are 0: lines 594-601. */
  function LengthCodeLengths(j: nat, nb: nat, ll: seq<nat>, bits: seq<bool>): (r: Result<seq<nat>>)
    requires j <= nb <= 19 && |ll| == 19 && forall i :: 0 <= i < 19 ==> ll[i] < 8
    ensures r.Ok? ==> |r.value| == 19 && |r.rest| <= |bits| && forall i :: 0 <= i < 19 ==> r.value[i] < 8
    decreases nb - j
  {
    if j == nb then Ok(ll, bits)
    else if |bits| < 3 then Short
    else
      LsbBound(bits[..3]);
      assert Pow2(3) == 8;
      LengthCodeLengths(j + 1, nb, ll[BORDER[j] := Lsb(bits[..3])], bits[3..])
  }

  /** The code lengths of both trees, run-length coded: section 3.2.7.  A run may cross from one tree to the other. */
  ghost function TreeLengths(bl: seq<nat>, n: nat, acc: seq<nat>, prev: nat, bits: seq<bool>): (r: Result<seq<nat>>)
    requires ValidLengths(bl) && |bl| == 19 && |acc| <= n && prev < 16 && forall i :: 0 <= i < |acc| ==> acc[i] < 16
    ensures r.Ok? ==> |r.value| == n && |r.rest| <= |bits| && forall i :: 0 <= i < n ==> r.value[i] < 16
    decreases |bits|
  {
    if |acc| == n then Ok(acc, bits)
    else
      match ReadSymbol(bl, bits)
      case Err(c) => Err(c)
      case Halt => Halt
      case Short => Short
      case Undefined => Undefined
      case Ok(sym, r1) =>
        if sym < 16 then TreeLengths(bl, n, acc + [sym], sym, r1)
        else if sym == 16 then TreeRun(bl, n, acc, prev, prev, 3, 2, r1)
        else if sym == 17 then TreeRun(bl, n, acc, 0, 0, 3, 3, r1)
        else TreeRun(bl, n, acc, 0, 0, 11, 7, r1)
  }

  /** A run of `x`, of `base` entries and as many more as the next `k` bits say. */
  ghost function TreeRun(bl: seq<nat>, n: nat, acc: seq<nat>, x: nat, prev: nat, base: nat, k: nat, bits: seq<bool>)
    : (r: Result<seq<nat>>)
    requires ValidLengths(bl) && |bl| == 19 && |acc| <= n && x < 16 && prev < 16
    requires 1 <= k && forall i :: 0 <= i < |acc| ==> acc[i] < 16
    ensures r.Ok? ==> |r.value| == n && |r.rest| <= |bits| && forall i :: 0 <= i < n ==> r.value[i] < 16
    decreases |bits|, 0
  {
    if |bits| < k then Short
    else
      var j := base + Lsb(bits[..k]);
      if |acc| + j > n then Err(1)
      else TreeLengths(bl, n, acc + Repeat(x, j), prev, bits[k..])
  }

  /** Section 3.2.7, with the limits of line 587. */
  ghost function InflateDynamic(out: seq<byte>, bits: seq<bool>): (r: Result<seq<byte>>)
    ensures r.Ok? ==> |r.rest| <= |bits|
  {
    if |bits| < 14 then Short
    else
      var nl, nd, nb := 257 + Lsb(bits[..5]), 1 + Lsb(bits[5..10]), 4 + Lsb(bits[10..14]);
      LsbBound(bits[10..14]);
      assert Pow2(4) == 16;
      if nl > 286 || nd > 30 then Err(1)
      else
        match LengthCodeLengths(0, nb, Repeat(0, 19), bits[14..])
        case Err(c) => Err(c)
        case Halt => Halt
        case Short => Short
        case Undefined => Undefined
        case Ok(bl, r1) =>
          if TreeCode(bl) != 0 then Err(TreeCode(bl))
          else
            match TreeLengths(bl, nl + nd, [], 0, r1)
            case Err(c) => Err(c)
            case Halt => Halt
            case Short => Short
            case Undefined => Undefined
            case Ok(ll, r2) => InflateTrees(ll[..nl], ll[nl..], out, r2)
  }

  /** An oversubscribed tree is an error; an incomplete one stops the machine: lines 677-702. */
  ghost function InflateTrees(lit: seq<nat>, dist: seq<nat>, out: seq<byte>, bits: seq<bool>): (r: Result<seq<byte>>)
    requires GoodTrees(lit, dist)
    ensures r.Ok? ==> |r.rest| <= |bits|
  {
    if TreeCode(lit) == 2 then Err(2)
    else if TreeCode(lit) == 1 then Halt
    else if TreeCode(dist) == 2 then Err(2)
    else if TreeCode(dist) == 1 then Halt
    else InflateCodes(lit, dist, out, bits)
  }

  // ---- Blocks: section 3.2.3 -----------------------------------------------------

  ghost function InflateBlock(out: seq<byte>, kind: nat, bits: seq<bool>): (r: Result<seq<byte>>)
    ensures r.Ok? ==> |r.rest| <= |bits|
  {
    if kind == 2 then InflateDynamic(out, bits)
    else if kind == 0 then InflateStored(out, bits)
    else if kind == 1 then InflateFixed(out, bits)
    else Err(2)
  }

  /** A stream is blocks up to and including one with the last-block bit set. */
  ghost function Inflate(out: seq<byte>, bits: seq<bool>): (r: Result<seq<byte>>)
    ensures r.Ok? ==> |r.rest| <= |bits|
    decreases |bits|
  {
    if |bits| < 3 then Short
    else
      match InflateBlock(out, Lsb(bits[1..3]), bits[3..])
      case Err(c) => Err(c)
      case Halt => Halt
      case Short => Short
      case Undefined => Undefined
      case Ok(out', rest) => if bits[0] then Ok(out', rest) else Inflate(out', rest)
  }
}
