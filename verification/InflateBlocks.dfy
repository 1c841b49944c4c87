// Blocks and whole streams: boot/zBoot/inflate.c:434-810.  The parameter `g`
// stands for the C file's global variables.
module InflateBlocks {
  import opened Bits
  import opened Canonical
  import opened HuftTables
  import opened HuftLoop
  import opened HuftCounts
  import opened Huffman
  import opened HuffmanDecode
  import opened FixedTrees
  import opened BitReader
  import opened Window
  import opened Decoder
  import opened Crc
  import Spec = InflateSpec

  // ---- Stored blocks: lines 434-486 -----------------------------------------

  /** The stream from the next byte boundary on. */
  ghost function Aligned(bits: seq<bool>): (r: seq<bool>)
    ensures |r| <= |bits|
  {
    bits[|bits| % 8..]
  }

  /** What each way out of the header means. */
  lemma StoredStep(out: seq<byte>, bits: seq<bool>, b: seq<bool>)
    requires b == Aligned(bits)
    ensures |b| < 32 ==> Spec.InflateStored(out, bits) == Spec.Short
    ensures |b| >= 32 && Lsb(b[..16]) + Lsb(b[16..][..16]) != 0xffff ==> Spec.InflateStored(out, bits) == Spec.Err(1)
    ensures |b| >= 32 && Lsb(b[..16]) + Lsb(b[16..][..16]) == 0xffff ==>
      Spec.InflateStored(out, bits) == Spec.StoredBytes(Lsb(b[..16]), out, b[16..][16..])
  {
    if |b| >= 32 {
      assert b[16..][..16] == b[16..32] && b[16..][16..] == b[32..];
    }
  }

  lemma AgreesShort<T>(r: Spec.Result<T>, out: T, rest: seq<bool>)
    requires r.Short?
    ensures Agrees(r, OutOfInput, out, rest)
  {
  }

  lemma AgreesError<T>(r: Spec.Result<T>, code: nat, out: T, rest: seq<bool>)
    requires r == Spec.Err(code) && code != 0
    ensures Agrees(r, Return(code), out, rest)
  {
  }

  lemma BytesStep(n: nat, out: seq<byte>, bits: seq<bool>)
    ensures var r := Spec.StoredBytes(n, out, bits);
      && (n == 0 ==> r == Spec.Ok(out, bits))
      && (n > 0 && |bits| < 8 ==> r == Spec.Short)
      && (n > 0 && |bits| >= 8 ==> r == Spec.StoredBytes(n - 1, out + [Spec.LsbByte(bits[..8])], bits[8..]))
  {
  }

  lemma OverBytes(k: nat, m: nat, n: nat)
    requires n == k + 8 * m
    ensures n % 8 == k % 8
  {
  }

  /** Lines 450-452: on to the next byte boundary. */
  method SkipToByte(g: Inflater)
    requires g.Valid()
    modifies g.reader
    ensures g.Valid()
    ensures g.reader.Rest() == Aligned(old(g.reader.Rest()))
  {
    hide Pow2, Lsb, ToBits, LowBits, BytesBits, SlidingWindow.Consistent;
    OverBytes(g.reader.bk, |g.reader.input| - g.reader.inptr, |g.reader.Rest()|);
    var n := g.reader.bk % 8;
    g.reader.DumpBits(n);
  }

  /** Lines 450-462: Return(0) with the length, or how the call ends. */
  method StoredHeader(g: Inflater) returns (o: Outcome, n: nat)
    requires g.Valid()
    modifies g.reader
    ensures g.Valid()
    ensures |g.reader.Rest()| <= |old(g.reader.Rest())|
    ensures var r := Spec.InflateStored(g.window.Out(), old(g.reader.Rest()));
      if o == Return(0) then r == Spec.StoredBytes(n, g.window.Out(), g.reader.Rest())
      else Agrees(r, o, g.window.Out(), g.reader.Rest())
  {
    hide Pow2, Lsb, ToBits, LowBits, BytesBits, Feed, Steps, Agrees;
    hide SlidingWindow.Consistent, Spec.InflateStored, Spec.StoredBytes, Spec.LsbByte;
    hide BitReader.Rest, SlidingWindow.Out, Aligned;
    ghost var out, bits := g.window.Out(), g.reader.Rest();
    ghost var r := Spec.InflateStored(out, bits);
    SkipToByte(g);
    ghost var b := g.reader.Rest();
    StoredStep(out, bits, b);
    var ok;
    ok, n := ReadNumber(g, 0, 16);
    if !ok {
      AgreesShort(r, out, b);
      return OutOfInput, n;
    }
    ok := g.reader.NeedBits(16);
    if !ok {
      AgreesShort(r, out, g.reader.Rest());
      return OutOfInput, n;
    }
    Pow16();
    if n != 0xffff - g.reader.Peek(16) {
      AgreesError(r, 1, out, g.reader.Rest());
      return Return(1), n;
    }
    g.reader.DumpBits(16);
    o := Return(0);
  }

  method InflateStored(g: Inflater) returns (o: Outcome)
    requires g.Valid()
    modifies g.reader, g.window, g.window.slide, g.window.register
    ensures g.Valid()
    ensures |g.reader.Rest()| <= |old(g.reader.Rest())|
    ensures Agrees(Spec.InflateStored(old(g.window.Out()), old(g.reader.Rest())), o, g.window.Out(), g.reader.Rest())
  {
    hide Pow2, Lsb, ToBits, LowBits, BytesBits, Feed, Steps, Agrees;
    hide SlidingWindow.Consistent, Spec.InflateStored, Spec.StoredBytes, Spec.LsbByte;
    var n;
    o, n := StoredHeader(g);
    if o == Return(0) {
      o := CopyBytes(g, n);
    }
  }

  lemma Pow16()
    ensures Pow2(16) == 0x1_0000
  {
    PowerValues();
  }

  /** Lines 466-476. */
  method CopyBytes(g: Inflater, n0: nat) returns (o: Outcome)
    requires g.Valid()
    modifies g.reader, g.window, g.window.slide, g.window.register
    ensures g.Valid()
    ensures |g.reader.Rest()| <= |old(g.reader.Rest())|
    ensures Agrees(Spec.StoredBytes(n0, old(g.window.Out()), old(g.reader.Rest())), o, g.window.Out(), g.reader.Rest())
  {
    hide Pow2, Lsb, ToBits, LowBits, BytesBits, Feed, Steps, SlidingWindow.Consistent, Spec.StoredBytes;
    ghost var r := Spec.StoredBytes(n0, g.window.Out(), g.reader.Rest());
    var n := n0;
    while n > 0
      invariant g.Valid() && |g.reader.Rest()| <= |old(g.reader.Rest())|
      invariant r == Spec.StoredBytes(n, g.window.Out(), g.reader.Rest())
    {
      BytesStep(n, g.window.Out(), g.reader.Rest());
      var ok := g.reader.NeedBits(8);
      if !ok {
        return OutOfInput;
      }
      Pow8();
      g.window.PutByte(g.reader.Peek(8));
      g.reader.DumpBits(8);
      n := n - 1;
    }
    BytesStep(0, g.window.Out(), g.reader.Rest());
    o := Return(0);
  }

  lemma Pow8()
    ensures Pow2(8) == 256
  {
  }

  // ---- Fixed trees: lines 490-540 ---------------------------------------------

  method FixedLists() returns (l: array<nat>)
    ensures fresh(l) && l[..] == Spec.FixedLiterals()
  {
    l := new nat[288];
    var i := 0;
    while i < 144
      invariant 0 <= i <= 144 && forall j :: 0 <= j < i ==> l[j] == 8
    {
      l[i] := 8;
      i := i + 1;
    }
    while i < 256
      invariant 144 <= i <= 256
      invariant forall j :: 0 <= j < i ==> l[j] == if j < 144 then 8 else 9
    {
      l[i] := 9;
      i := i + 1;
    }
    while i < 280
      invariant 256 <= i <= 280
      invariant forall j :: 0 <= j < i ==> l[j] == if j < 144 then 8 else if j < 256 then 9 else 7
    {
      l[i] := 7;
      i := i + 1;
    }
    while i < 288
      invariant 280 <= i <= 288
      invariant forall j :: 0 <= j < i ==>
        l[j] == if j < 144 then 8 else if j < 256 then 9 else if j < 280 then 7 else 8
    {
      l[i] := 8;
      i := i + 1;
    }
  }

  /** Lines 519-520. */
  method FillDistances(l: array<nat>)
    requires l.Length == 288
    modifies l
    ensures l[..30] == Spec.Repeat(5, 30)
  {
    var i := 0;
    while i < 30
      invariant 0 <= i <= 30
      invariant l[..i] == Spec.Repeat(5, i)
    {
      l[i] := 5;
      i := i + 1;
    }
  }

  /** Lines 504-528: both trees, or the code to return. */
  method BuildFixed()
    returns (code: nat, tl: array?<Huft>, bl: nat, td: array?<Huft>, bd: nat,
             ghost PL: Plan, ghost FL: Forest, ghost PD: Plan, ghost FD: Forest)
    ensures code == 0
    ensures TreeFor(Spec.FixedLiterals(), 257, Spec.CPLENS, Spec.CPLEXT, PL, FL, tl, bl)
    ensures TreeFor(Spec.FixedDistances(), 0, Spec.CPDIST, Spec.CPDEXT, PD, FD, td, bd)
  {
    hide Pow2, Spec.FixedLiterals, Spec.FixedDistances, KraftSum, CountOf, Balanced, Tree, PlanFor;
    hide FindsAll, LosesExactly, HuftMeaning.AtMostOnce, HuftMeaning.EachOnce, Built, MaxLength, LeastLength;
    hide Counts, Synced, TreeFor, ListsCover;
    td, bd := null, 0;
    PD, FD := Plan([], 0, 0, []), NO_FOREST;
    var l := FixedLists();
    FixedLiteralTree();
    FixedDistanceTree();
    FixedListsCover();
    code, tl, bl, PL, FL := HuftBuild(l[..], 257, Spec.CPLENS, Spec.CPLEXT, 7);
    if code != 0 {
      assert false;
    }
    FixedBalanced(PL, Spec.FixedLiterals(), 257, Spec.CPLENS, Spec.CPLEXT, bl);
    IsTree(Spec.FixedLiterals(), 257, Spec.CPLENS, Spec.CPLEXT, PL, FL, tl, bl);
    assert l !in Tables(FL);
    FillDistances(l);
    FixedDistanceList();
    assert l[..30] == Spec.FixedDistances();
    var code2;
    code2, td, bd, PD, FD := HuftBuild(l[..30], 0, Spec.CPDIST, Spec.CPDEXT, 5);
    if code2 > 1 {
      assert false;
    }
    FixedBalanced(PD, Spec.FixedDistances(), 0, Spec.CPDIST, Spec.CPDEXT, bd);
    IsTree(Spec.FixedDistances(), 0, Spec.CPDIST, Spec.CPDEXT, PD, FD, td, bd);
  }

  lemma FixedListsCover()
    ensures forall n: nat :: n <= 288 ==> ListsCover(n, 257, Spec.CPLENS, Spec.CPLEXT)
    ensures forall n: nat :: n <= 30 ==> ListsCover(n, 0, Spec.CPDIST, Spec.CPDEXT)
  {
  }

  lemma IsTree(b: seq<nat>, s0: nat, d: seq<nat>, e: seq<nat>, P: Plan, F: Forest, t: array?<Huft>, m: nat)
    requires |b| >= 1 && ValidLengths(b) && ListsCover(|b|, s0, d, e)
    requires Longest(b) == 0 ==> t == null && m == 0
    requires Longest(b) > 0 ==> t != null && PlanFor(P, b, s0, d, e) && Tree(P, F, t, m)
    ensures TreeFor(b, s0, d, e, P, F, t, m)
  {
    hide PlanFor, Tree, ListsCover;
  }

  method InflateFixed(g: Inflater) returns (o: Outcome)
    requires g.Valid()
    modifies g.reader, g.window, g.window.slide, g.window.register
    ensures g.Valid()
    ensures |g.reader.Rest()| <= |old(g.reader.Rest())|
    ensures Agrees(Spec.InflateFixed(old(g.window.Out()), old(g.reader.Rest())), o, g.window.Out(), g.reader.Rest())
  {
    hide SlidingWindow.Consistent, Spec.FixedLiterals, Spec.FixedDistances, Spec.InflateCodes, TreeFor, Agrees;
    hide Pow2, Lsb, ToBits, BytesBits, Feed, Steps;
    FixedGood();
    var code, tl, bl, td, bd, PL, FL, PD, FD := BuildFixed();
    o := g.InflateCodes(tl, td, bl, bd, Spec.FixedLiterals(), Spec.FixedDistances(), PL, FL, PD, FD);
  }

  lemma FixedGood()
    ensures Spec.GoodTrees(Spec.FixedLiterals(), Spec.FixedDistances())
    ensures forall out, bits {:trigger Spec.InflateFixed(out, bits)} ::
      Spec.InflateFixed(out, bits) == Spec.InflateCodes(Spec.FixedLiterals(), Spec.FixedDistances(), out, bits)
  {
    FixedLiteralTree();
    FixedDistanceTree();
  }

  lemma FixedDistanceList()
    ensures Spec.FixedDistances() == Spec.Repeat(5, 30)
  {
  }

  lemma FixedBalanced(P: Plan, b: seq<nat>, s0: nat, d: seq<nat>, e: seq<nat>, m: nat)
    requires ValidLengths(b) && ListsCover(|b|, s0, d, e) && PlanFor(P, b, s0, d, e)
    requires 1 <= m && Longest(b) <= 2 * m
    ensures Balanced(P.c, P.g, m)
  {
    hide First, Pow2, CountOf;
    ShortIsBalanced(P.c, P.g, m);
  }

  // ---- The code length code: lines 574-614 --------------------------------------

  /** The place of each length in the order in which the lengths are sent. */
  const RANK: seq<nat> := [3, 17, 15, 13, 11, 9, 7, 5, 4, 6, 8, 10, 12, 14, 16, 18, 0, 1, 2]

  lemma BorderInverse(i: nat)
    requires i < 19
    ensures Spec.BORDER[i] < 19 && RANK[i] < 19
    ensures RANK[Spec.BORDER[i]] == i && Spec.BORDER[RANK[i]] == i
  {
  }

  method ReadNumber(g: Inflater, base: nat, k: nat) returns (ok: bool, n: nat)
    requires g.Valid() && k <= 16
    modifies g.reader
    ensures g.Valid()
    ensures !ok ==> |old(g.reader.Rest())| < k && g.reader.Rest() == old(g.reader.Rest())
    ensures ok ==> k <= |old(g.reader.Rest())| && n == base + Lsb(old(g.reader.Rest())[..k])
    ensures ok ==> g.reader.Rest() == old(g.reader.Rest())[k..]
  {
    hide Pow2, Lsb, ToBits, LowBits, BytesBits;
    n := base;
    ok := g.reader.NeedBits(k);
    if ok {
      n := base + g.reader.Peek(k);
      g.reader.DumpBits(k);
    }
  }

  lemma LengthCodeStep(j: nat, nb: nat, ll: seq<nat>, bits: seq<bool>)
    requires j <= nb <= 19 && |ll| == 19 && forall i :: 0 <= i < 19 ==> ll[i] < 8
    ensures var r := Spec.LengthCodeLengths(j, nb, ll, bits);
      && (j == nb ==> r == Spec.Ok(ll, bits))
      && (j < nb && |bits| < 3 ==> r == Spec.Short)
      && (j < nb && |bits| >= 3 ==> Lsb(bits[..3]) < 8)
      && (j < nb && |bits| >= 3 ==>
            r == Spec.LengthCodeLengths(j + 1, nb, ll[Spec.BORDER[j] := Lsb(bits[..3])], bits[3..]))
  {
    if j < nb && |bits| >= 3 {
      LsbBound(bits[..3]);
      assert Pow2(3) == 8;
    }
  }

  /** The first `j` lengths in the order of sending are in place; those not sent yet count as 0. */
  ghost predicate PlacedUpTo(ll: seq<nat>, lens: seq<nat>, j: nat)
  {
    && |ll| >= 19 && |lens| == 19 && (forall i :: 0 <= i < 19 ==> lens[i] < 8)
    && forall i :: 0 <= i < 19 ==> if RANK[i] < j then ll[i] == lens[i] else lens[i] == 0
  }

  lemma PlacedStep(ll: seq<nat>, lens: seq<nat>, j: nat, x: nat)
    requires PlacedUpTo(ll, lens, j) && j < 19 && x < 8
    ensures Spec.BORDER[j] < 19
    ensures PlacedUpTo(ll[Spec.BORDER[j] := x], lens[Spec.BORDER[j] := x], j + 1)
  {
    BorderInverse(j);
    forall i | 0 <= i < 19 && i != Spec.BORDER[j]
      ensures RANK[i] != j
    {
      BorderInverse(i);
    }
  }

  lemma PlacedAll(ll: seq<nat>, lens: seq<nat>)
    requires PlacedUpTo(ll, lens, 19)
    ensures ll[..19] == lens
  {
    forall i | 0 <= i < 19
      ensures ll[i] == lens[i]
    {
      BorderInverse(i);
    }
  }

  /** Lines 594-601; the array starts out unset. */
  method ReadLengthCode(g: Inflater, nb: nat, ll: array<nat>) returns (ok: bool, ghost lens: seq<nat>)
    requires g.Valid() && nb <= 19 && ll.Length == 316
    modifies g.reader, ll
    ensures g.Valid()
    ensures |g.reader.Rest()| <= |old(g.reader.Rest())|
    ensures !ok ==> Spec.LengthCodeLengths(0, nb, Spec.Repeat(0, 19), old(g.reader.Rest())).Short?
    ensures ok ==> |lens| == 19 && ll[..19] == lens && forall i :: 0 <= i < 19 ==> lens[i] < 8
    ensures ok ==>
      Spec.LengthCodeLengths(0, nb, Spec.Repeat(0, 19), old(g.reader.Rest())) == Spec.Ok(lens, g.reader.Rest())
  {
    hide Pow2, Lsb, ToBits, LowBits, BytesBits, Spec.LengthCodeLengths, SlidingWindow.Consistent;
    ghost var r := Spec.LengthCodeLengths(0, nb, Spec.Repeat(0, 19), g.reader.Rest());
    lens := Spec.Repeat(0, 19);
    var j := 0;
    while j < nb
      invariant g.Valid() && 0 <= j <= nb && PlacedUpTo(ll[..], lens, j)
      invariant |g.reader.Rest()| <= |old(g.reader.Rest())|
      invariant r == Spec.LengthCodeLengths(j, nb, lens, g.reader.Rest())
    {
      LengthCodeStep(j, nb, lens, g.reader.Rest());
      ok := g.reader.NeedBits(3);
      if !ok {
        return;
      }
      var x := g.reader.Peek(3);
      PlacedStep(ll[..], lens, j, x);
      ll[Spec.BORDER[j]] := x;
      lens := lens[Spec.BORDER[j] := x];
      g.reader.DumpBits(3);
      j := j + 1;
    }
    LengthCodeStep(nb, nb, lens, g.reader.Rest());
    while j < 19
      invariant nb <= j <= 19 && PlacedUpTo(ll[..], lens, j)
      modifies ll
    {
      PlacedStep(ll[..], lens, j, 0);
      ZeroBefore(lens, j, ll[..]);
      ll[Spec.BORDER[j]] := 0;
      j := j + 1;
    }
    PlacedAll(ll[..], lens);
    assert ll[..][..19] == ll[..19];
    ok := true;
  }

  lemma ZeroBefore(lens: seq<nat>, j: nat, ll: seq<nat>)
    requires PlacedUpTo(ll, lens, j) && j < 19
    ensures Spec.BORDER[j] < 19 && lens[Spec.BORDER[j] := 0] == lens
  {
    BorderInverse(j);
  }

  // ---- The code lengths of both trees: lines 616-660 ------------------------------

  /** A tree that huft_build accepted and whose root table holds all its codes. */
  ghost predicate FlatTree(lens: seq<nat>, P: Plan, F: Forest, t: array?<Huft>, m: nat)
    reads Tables(F)
  {
    && TreeFor(lens, 19, [], [], P, F, t, m) && |lens| == 19
    && Spec.TreeCode(lens) == 0 && (Longest(lens) > 0 ==> P.l == P.g)
  }

  /** A root as wide as the longest code has no links. */
  lemma RootIsFlat(P: Plan, F: Forest, R: seq<bool>, slot: Huft)
    requires ValidPlan(P) && Shape(P, F) && Narrow(P, F.node) && P.l == P.g
    requires |F.node| > 0 && F.node[0] == Node([], P.l) && P.l <= |R|
    requires SlotGood(P, F, 0, R[..P.l], slot)
    ensures IsLeaf(slot)
  {
    hide Pos, Pow2, First, Offset;
    if T': nat :| LinkSlot(F, 0, R[..P.l], slot, T') {
      assert false;
    }
    var k: nat, r: nat :| CodeSlot(P, F.node[0], R[..P.l], slot, k, r);
  }

  /** An accepted tree of 19 lengths has no slot marked invalid: line 623 need not look. */
  lemma NeverInvalid(P: Plan, lens: seq<nat>, n: Node, S: seq<bool>, slot: Huft, k: nat, r: nat)
    requires ValidLengths(lens) && |lens| == 19 && ListsCover(19, 19, [], []) && PlanFor(P, lens, 19, [], [])
    requires Spec.TreeCode(lens) == 0 && Longest(lens) > 0 && CodeSlot(P, n, S, slot, k, r)
    ensures slot.Huft? ==> slot.e != 99
  {
    hide Pow2, Pos, First, CountOf, KraftSum, Counts;
    if r < CountOf(lens, k) {
      assert CodeEntry(P, lens, 19, [], [], k, r);
    } else {
      assert SpareEntry(P, lens, r);
      if P.g == 1 {
        OffsetOne(P.c);
        OneBitCodes(P);
      } else {
        NoSpare(P, lens, r);
      }
    }
  }

  lemma OneBitCodes(P: Plan)
    requires ValidPlan(P) && P.g == 1
    ensures P.c[1] == 2
  {
    assert Pow2(1) == 2;
  }

  lemma NoSpare(P: Plan, lens: seq<nat>, r: nat)
    requires ValidLengths(lens) && ListsCover(|lens|, 19, [], []) && PlanFor(P, lens, 19, [], [])
    requires KraftSum(lens) == Pow2(BMAX)
    ensures P.c[P.g] == CountOf(lens, P.g)
  {
    hide Pow2, First, CountOf, KraftSum;
    KraftMeaning(lens, P.g);
    FirstAgrees(P.c, Counts(lens), P.g);
    CountsAt(lens, P.g);
  }

  /** Lines 622-625: one lookup, without a look at the operation. */
  method DecodeLength(g: Inflater, tl: array?<Huft>, bl: nat, ghost lens: seq<nat>, ghost P: Plan, ghost F: Forest)
    returns (f: Fetched, ghost sym: nat)
    requires g.Valid() && FlatTree(lens, P, F, tl, bl)
    modifies g.reader
    ensures g.Valid()
    ensures |g.reader.Rest()| <= |old(g.reader.Rest())|
    ensures !f.Invalid?
    ensures FetchedRight(lens, 19, [], [], old(g.reader.Rest()), g.reader.Rest(), f, sym)
  {
    hide Pow2, Lsb, ToBits, Pos, First, Offset, CountOf, LowBits, BytesBits, Spec.ReadSymbol, KraftSum;
    hide SlidingWindow.Consistent;
    ghost var R := g.reader.Rest();
    sym := 0;
    if tl == null {
      EmptyTree(lens, R);
      return Unwritten, 0;
    }
    PlanBits(P, lens, 19, [], []);
    var ok := g.reader.NeedBits(bl);
    if !ok {
      return NoInput, 0;
    }
    SlotAt(P, F, 0, R);
    var t := tl[g.reader.Peek(bl)];
    RootIsFlat(P, F, R, t);
    SlotForm(P, F, 0, R[..bl], t);
    ghost var k: nat, r: nat :| CodeSlot(P, F.node[0], R[..bl], t, k, r);
    NeverInvalid(P, lens, F.node[0], R[..bl], t, k, r);
    sym := LeafRight(P, F, lens, 19, [], [], 0, R[..bl], R, t);
    if t.Undef? {
      return Unwritten, sym;
    }
    g.reader.DumpBits(t.b);
    f := Entry(t.e, t.n);
  }

  lemma LengthsStep(lens: seq<nat>, n: nat, acc: seq<nat>, prev: nat, bits: seq<bool>, rest: seq<bool>,
                    f: Fetched, sym: nat)
    requires ValidLengths(lens) && |lens| == 19 && ListsCover(19, 19, [], []) && !f.Invalid?
    requires |acc| < n && prev < 16 && forall i :: 0 <= i < |acc| ==> acc[i] < 16
    requires FetchedRight(lens, 19, [], [], bits, rest, f, sym)
    ensures var r := Spec.TreeLengths(lens, n, acc, prev, bits);
      && (f.NoInput? ==> Agrees(r, OutOfInput, acc, rest))
      && (f.Unwritten? ==> Agrees(r, ReadUnset, acc, rest))
      && (f.Entry? ==> |rest| < |bits| && f.n == sym < 19)
      && (f.Entry? && sym < 16 ==> r == Spec.TreeLengths(lens, n, acc + [sym], sym, rest))
      && (f.Entry? && sym == 16 ==> r == Spec.TreeRun(lens, n, acc, prev, prev, 3, 2, rest))
      && (f.Entry? && sym == 17 ==> r == Spec.TreeRun(lens, n, acc, 0, 0, 3, 3, rest))
      && (f.Entry? && sym == 18 ==> r == Spec.TreeRun(lens, n, acc, 0, 0, 11, 7, rest))
  {
    hide Spec.ReadSymbol, Spec.TreeRun;
  }

  lemma RunStep(lens: seq<nat>, n: nat, acc: seq<nat>, x: nat, prev: nat, base: nat, k: nat, bits: seq<bool>)
    requires ValidLengths(lens) && |lens| == 19 && |acc| <= n && x < 16 && prev < 16 && 1 <= k <= 7
    requires forall i :: 0 <= i < |acc| ==> acc[i] < 16
    ensures var r := Spec.TreeRun(lens, n, acc, x, prev, base, k, bits);
      && (r.Ok? ==> |r.rest| <= |bits|)
      && (k <= |bits| && |acc| + base + Lsb(bits[..k]) > n ==> r == Spec.Err(1))
      && (k <= |bits| && |acc| + base + Lsb(bits[..k]) <= n ==>
            r == Spec.TreeLengths(lens, n, acc + Spec.Repeat(x, base + Lsb(bits[..k])), prev, bits[k..]))
  {
    hide Spec.TreeLengths;
  }

  /** Lines 630-636, 640-647, 651-658: a run, unless it would overshoot; Return(0) means it was stored. */
  method ReadRun(g: Inflater, ll: array<nat>, i: nat, n: nat, x: nat, base: nat, k: nat,
                 ghost lens: seq<nat>, ghost prev: nat)
    returns (o: Outcome, i': nat)
    requires g.Valid() && i <= n <= ll.Length && x < 16 && prev < 16 && 1 <= k <= 7
    requires ValidLengths(lens) && |lens| == 19 && forall t :: 0 <= t < i ==> ll[t] < 16
    modifies g.reader, ll
    ensures g.Valid() && i <= i' <= n && ll[n..] == old(ll[n..])
    ensures forall t :: 0 <= t < i' ==> ll[t] < 16
    ensures |g.reader.Rest()| <= |old(g.reader.Rest())|
    ensures var r := Spec.TreeRun(lens, n, old(ll[..i]), x, prev, base, k, old(g.reader.Rest()));
      if o == Return(0) then r == Spec.TreeLengths(lens, n, ll[..i'], prev, g.reader.Rest())
      else Agrees(r, o, [], g.reader.Rest())
    ensures var bits := old(g.reader.Rest());
      o == if k > |bits| then OutOfInput else if i + base + Lsb(bits[..k]) > n then Return(1) else Return(0)
  {
    hide Pow2, Lsb, ToBits, LowBits, BytesBits, Spec.TreeRun, Spec.TreeLengths, SlidingWindow.Consistent;
    i' := i;
    ghost var bits, acc := g.reader.Rest(), ll[..i];
    RunStep(lens, n, acc, x, prev, base, k, bits);
    var ok := g.reader.NeedBits(k);
    if !ok {
      return OutOfInput, i';
    }
    var j := base + g.reader.Peek(k);
    g.reader.DumpBits(k);
    if i + j > n {
      return Return(1), i';
    }
    while i' < i + j
      invariant i <= i' <= i + j
      invariant ll[..i'] == acc + Spec.Repeat(x, i' - i) && ll[n..] == old(ll[n..])
      modifies ll
    {
      ll[i'] := x;
      i' := i' + 1;
    }
    forall t | 0 <= t < i'
      ensures ll[t] < 16
    {
      assert ll[t] == ll[..i'][t];
    }
    o := Return(0);
  }

  /** Lines 628-659: the three symbols that repeat a length. */
  method ReadRepeat(g: Inflater, ll: array<nat>, i: nat, n: nat, j: nat, l: nat, ghost lens: seq<nat>)
    returns (o: Outcome, i': nat, l': nat)
    requires g.Valid() && i <= n <= ll.Length && l < 16 && 16 <= j <= 18
    requires ValidLengths(lens) && |lens| == 19 && forall t :: 0 <= t < i ==> ll[t] < 16
    modifies g.reader, ll
    ensures g.Valid() && i <= i' <= n && l' < 16 && ll[n..] == old(ll[n..])
    ensures forall t :: 0 <= t < i' ==> ll[t] < 16
    ensures |g.reader.Rest()| <= |old(g.reader.Rest())|
    ensures var r := if j == 16 then Spec.TreeRun(lens, n, old(ll[..i]), l, l, 3, 2, old(g.reader.Rest()))
                     else if j == 17 then Spec.TreeRun(lens, n, old(ll[..i]), 0, 0, 3, 3, old(g.reader.Rest()))
                     else Spec.TreeRun(lens, n, old(ll[..i]), 0, 0, 11, 7, old(g.reader.Rest()));
      if o == Return(0) then r == Spec.TreeLengths(lens, n, ll[..i'], l', g.reader.Rest())
      else Agrees(r, o, [], g.reader.Rest())
  {
    hide *;
    l' := l;
    if j == 16 {
      o, i' := ReadRun(g, ll, i, n, l, 3, 2, lens, l);
    } else if j == 17 {
      o, i' := ReadRun(g, ll, i, n, 0, 3, 3, lens, 0);
      l' := 0;
    } else {
      o, i' := ReadRun(g, ll, i, n, 0, 11, 7, lens, 0);
      l' := 0;
    }
  }

  /** Lines 617-660. */
  method ReadTreeLengths(g: Inflater, tl: array?<Huft>, bl: nat, ll: array<nat>, n: nat,
                         ghost lens: seq<nat>, ghost P: Plan, ghost F: Forest)
    returns (o: Outcome)
    requires g.Valid() && FlatTree(lens, P, F, tl, bl) && n <= ll.Length
    requires ValidLengths(lens) && |lens| == 19
    modifies g.reader, ll
    ensures g.Valid() && ll[n..] == old(ll[n..])
    ensures |g.reader.Rest()| <= |old(g.reader.Rest())|
    ensures o == Return(0) ==> forall t :: 0 <= t < n ==> ll[t] < 16
    ensures Agrees(Spec.TreeLengths(lens, n, [], 0, old(g.reader.Rest())), o, ll[..n], g.reader.Rest())
  {
    hide Pow2, Lsb, ToBits, LowBits, BytesBits, Spec.TreeRun, Spec.TreeLengths, SlidingWindow.Consistent;
    hide FlatTree, FetchedRight, Spec.ReadSymbol, Feed, Steps;
    ghost var r := Spec.TreeLengths(lens, n, [], 0, g.reader.Rest());
    var i: nat := 0;
    var l: nat := 0;
    assert ll !in Tables(F) && g.Apart(F);
    while i < n
      invariant g.Valid() && i <= n && l < 16 && FlatTree(lens, P, F, tl, bl)
      invariant |g.reader.Rest()| <= |old(g.reader.Rest())|
      invariant ll[n..] == old(ll[n..])
      invariant forall t :: 0 <= t < i ==> ll[t] < 16
      invariant r == Spec.TreeLengths(lens, n, ll[..i], l, g.reader.Rest())
      decreases |g.reader.Rest()|
    {
      ghost var acc, bits := ll[..i], g.reader.Rest();
      var f, sym := DecodeLength(g, tl, bl, lens, P, F);
      LengthsStep(lens, n, acc, l, bits, g.reader.Rest(), f, sym);
      match f
      case NoInput => return OutOfInput;
      case Unwritten => return ReadUnset;
      case Entry(e, j) =>
        if j < 16 {
          ll[i] := j;
          assert ll[..i + 1] == acc + [j];
          l := j;
          i := i + 1;
        } else {
          o, i, l := ReadRepeat(g, ll, i, n, j, l, lens);
          if o != Return(0) {
            return;
          }
        }
    }
    LengthsDone(lens, n, ll[..n], l, g.reader.Rest());
    o := Return(0);
  }

  lemma LengthsDone(lens: seq<nat>, n: nat, acc: seq<nat>, prev: nat, bits: seq<bool>)
    requires ValidLengths(lens) && |lens| == 19 && prev < 16 && |acc| == n && forall i :: 0 <= i < n ==> acc[i] < 16
    ensures Spec.TreeLengths(lens, n, acc, prev, bits) == Spec.Ok(acc, bits)
  {
  }

  // ---- Dynamic trees: lines 544-718 -------------------------------------------------

  /** Lines 675-702: both trees, or how the call ends. */
  method BuildDynamic(ll: array<nat>, nl: nat, nd: nat)
    returns (o: Outcome, tl: array?<Huft>, bl: nat, td: array?<Huft>, bd: nat,
             ghost PL: Plan, ghost FL: Forest, ghost PD: Plan, ghost FD: Forest)
    requires 1 <= nl <= 286 && 1 <= nd <= 30 && nl + nd <= ll.Length
    requires forall t :: 0 <= t < nl + nd ==> ll[t] < 16
    ensures ValidLengths(ll[..nl]) && ValidLengths(ll[nl..nl + nd])
    ensures var lit, dist := Spec.TreeCode(ll[..nl]), Spec.TreeCode(ll[nl..nl + nd]);
      o == if lit == 2 then Return(2) else if lit == 1 then Stopped
           else if dist == 2 then Return(2) else if dist == 1 then Stopped else Return(0)
    ensures o == Return(0) ==>
      && TreeFor(ll[..nl], 257, Spec.CPLENS, Spec.CPLEXT, PL, FL, tl, bl)
      && TreeFor(ll[nl..nl + nd], 0, Spec.CPDIST, Spec.CPDEXT, PD, FD, td, bd)
  {
    hide Pow2, KraftSum, CountOf, Balanced, Tree, PlanFor, MaxLength, LeastLength, Counts, Clamp;
    hide FindsAll, LosesExactly, HuftMeaning.AtMostOnce, HuftMeaning.EachOnce, Built, TreeFor, ListsCover, Synced;
    tl, td, bl, bd := null, null, 0, 0;
    PL, FL := Plan([], 0, 0, []), NO_FOREST;
    PD, FD := PL, FL;
    FixedListsCover();
    var i;
    i, tl, bl, PL, FL := HuftBuild(ll[..nl], 257, Spec.CPLENS, Spec.CPLEXT, 9);
    if i != 0 {
      return if i == 1 then Stopped else Return(i), tl, bl, td, bd, PL, FL, PD, FD;
    }
    if tl != null {
      LiteralBalanced(PL, ll[..nl], 257, Spec.CPLENS, Spec.CPLEXT, bl);
    }
    IsTree(ll[..nl], 257, Spec.CPLENS, Spec.CPLEXT, PL, FL, tl, bl);
    i, td, bd, PD, FD := HuftBuild(ll[nl..nl + nd], 0, Spec.CPDIST, Spec.CPDEXT, 6);
    if i != 0 {
      return if i == 1 then Stopped else Return(i), tl, bl, td, bd, PL, FL, PD, FD;
    }
    if td != null {
      DistanceBalanced(PD, ll[nl..nl + nd], 0, Spec.CPDIST, Spec.CPDEXT, bd);
    }
    IsTree(ll[nl..nl + nd], 0, Spec.CPDIST, Spec.CPDEXT, PD, FD, td, bd);
    o := Return(0);
  }

  lemma TreesStep(lit: seq<nat>, dist: seq<nat>, out: seq<byte>, bits: seq<bool>, o: Outcome)
    requires Spec.GoodTrees(lit, dist)
    requires var l, d := Spec.TreeCode(lit), Spec.TreeCode(dist);
      o == if l == 2 then Return(2) else if l == 1 then Stopped
           else if d == 2 then Return(2) else if d == 1 then Stopped else Return(0)
    ensures var r := Spec.InflateTrees(lit, dist, out, bits);
      if o == Return(0) then r == Spec.InflateCodes(lit, dist, out, bits) else Agrees(r, o, out, bits)
  {
    hide Spec.InflateCodes, Spec.TreeCode;
  }

  method InflateTrees(g: Inflater, ll: array<nat>, nl: nat, nd: nat) returns (o: Outcome)
    requires g.Valid() && 1 <= nl <= 286 && 1 <= nd <= 30 && nl + nd <= ll.Length
    requires forall t :: 0 <= t < nl + nd ==> ll[t] < 16
    modifies g.reader, g.window, g.window.slide, g.window.register
    ensures g.Valid()
    ensures |g.reader.Rest()| <= |old(g.reader.Rest())|
    ensures Spec.GoodTrees(old(ll[..nl]), old(ll[nl..nl + nd]))
    ensures Agrees(Spec.InflateTrees(old(ll[..nl]), old(ll[nl..nl + nd]), old(g.window.Out()), old(g.reader.Rest())),
                   o, g.window.Out(), g.reader.Rest())
  {
    hide SlidingWindow.Consistent, Spec.InflateCodes, Spec.InflateTrees, Spec.TreeCode, TreeFor, Agrees;
    hide Pow2, Lsb, ToBits, BytesBits, Feed, Steps;
    ghost var lit, dist := ll[..nl], ll[nl..nl + nd];
    var built, tl, bl, td, bd, PL, FL, PD, FD := BuildDynamic(ll, nl, nd);
    o := built;
    TreesStep(lit, dist, g.window.Out(), g.reader.Rest(), o);
    if o == Return(0) {
      o := g.InflateCodes(tl, td, bl, bd, lit, dist, PL, FL, PD, FD);
    }
  }

  lemma FlatBuilt(P: Plan, b: seq<nat>, m: nat)
    requires ValidLengths(b) && |b| == 19 && ListsCover(19, 19, [], []) && Longest(b) > 0
    requires PlanFor(P, b, 19, [], []) && P.l == m && m == Clamp(7, Shortest(b), Longest(b))
    requires forall i :: 0 <= i < 19 ==> b[i] < 8
    ensures P.l == P.g && Balanced(P.c, P.g, m)
  {
    hide Pow2, First, CountOf;
    ShortLengths(b, 7);
    ShortIsBalanced(P.c, P.g, m);
  }

  /** Lines 606-612: the tree of the code length code, or the code to return. */
  method BuildLengthTree(ll: array<nat>, ghost lens: seq<nat>)
    returns (i: nat, tl: array?<Huft>, bl: nat, ghost P: Plan, ghost F: Forest)
    requires ll.Length >= 19 && ll[..19] == lens && |lens| == 19 && forall t :: 0 <= t < 19 ==> lens[t] < 8
    ensures i == Spec.TreeCode(lens)
    ensures i == 0 ==> FlatTree(lens, P, F, tl, bl)
  {
    hide Pow2, KraftSum, CountOf, Balanced, Tree, PlanFor, FindsAll, LosesExactly, HuftMeaning.AtMostOnce,
        HuftMeaning.EachOnce, Built;
    i, tl, bl, P, F := HuftBuild(ll[..19], 19, [], [], 7);
    if i == 0 && tl != null {
      FlatBuilt(P, lens, bl);
    }
  }

  lemma Sixteen()
    ensures Pow2(4) == 16
  {
  }

  lemma HeaderSlices(bits: seq<bool>)
    requires |bits| >= 14
    ensures bits[5..][..5] == bits[5..10] && bits[5..][5..][..4] == bits[10..14]
    ensures bits[5..][5..][4..] == bits[14..]
    ensures Lsb(bits[10..14]) < 16
  {
    hide Lsb, Pow2;
    assert bits[5..][5..] == bits[10..];
    assert bits[10..][..4] == bits[10..14] && bits[10..][4..] == bits[14..];
    LsbBound(bits[10..14]);
    Sixteen();
  }

  lemma DynamicStep(out: seq<byte>, bits: seq<bool>)
    ensures |bits| < 14 ==> Spec.InflateDynamic(out, bits).Short?
    ensures |bits| >= 14 ==>
      var nl, nd, nb := 257 + Lsb(bits[..5]), 1 + Lsb(bits[5..][..5]), 4 + Lsb(bits[5..][5..][..4]);
      nl >= 257 && nd >= 1 && nb <= 19 &&
      if nl > 286 || nd > 30 then Spec.InflateDynamic(out, bits) == Spec.Err(1)
      else Spec.InflateDynamic(out, bits) == DynamicTrees(out, nl, nd, nb, bits[5..][5..][4..])
  {
    hide Lsb, Pow2, Spec.TreeLengths, Spec.InflateTrees, Spec.LengthCodeLengths, Spec.TreeCode;
    if |bits| >= 14 {
      HeaderSlices(bits);
    }
  }

  /** InflateDynamic after its header. */
  ghost function DynamicTrees(out: seq<byte>, nl: nat, nd: nat, nb: nat, bits: seq<bool>): (r: Spec.Result<seq<byte>>)
    requires 257 <= nl <= 286 && 1 <= nd <= 30 && nb <= 19
  {
    match Spec.LengthCodeLengths(0, nb, Spec.Repeat(0, 19), bits)
    case Err(c) => Spec.Err(c)
    case Halt => Spec.Halt
    case Short => Spec.Short
    case Undefined => Spec.Undefined
    case Ok(bl, r1) =>
      if Spec.TreeCode(bl) != 0 then Spec.Err(Spec.TreeCode(bl)) else DynamicLengths(out, nl, nd, bl, r1)
  }

  ghost function DynamicLengths(out: seq<byte>, nl: nat, nd: nat, bl: seq<nat>,
      bits: seq<bool>): (r: Spec.Result<seq<byte>>)
    requires 257 <= nl <= 286 && 1 <= nd <= 30 && |bl| == 19 && ValidLengths(bl)
  {
    match Spec.TreeLengths(bl, nl + nd, [], 0, bits)
    case Err(c) => Spec.Err(c)
    case Halt => Spec.Halt
    case Short => Spec.Short
    case Undefined => Spec.Undefined
    case Ok(ll, r2) => Spec.InflateTrees(ll[..nl], ll[nl..], out, r2)
  }

  /** The lengths ended the call, or were read and the trees follow. */
  lemma LengthsThenTrees(out: seq<byte>, nl: nat, nd: nat, bl: seq<nat>, bits: seq<bool>,
                         o: Outcome, ll: seq<nat>, rest: seq<bool>)
    requires 257 <= nl <= 286 && 1 <= nd <= 30 && |bl| == 19 && ValidLengths(bl) && |ll| == nl + nd
    requires Agrees(Spec.TreeLengths(bl, nl + nd, [], 0, bits), o, ll, rest)
    requires Spec.GoodTrees(ll[..nl], ll[nl..]) || o != Return(0)
    ensures var r := DynamicLengths(out, nl, nd, bl, bits);
      && (o != Return(0) ==> Agrees(r, o, out, rest))
      && (o == Return(0) ==> r.Undefined? || r == Spec.InflateTrees(ll[..nl], ll[nl..], out, rest))
  {
    hide Spec.TreeLengths, Spec.InflateTrees;
  }

  lemma Adopt<T>(r: Spec.Result<T>, r': Spec.Result<T>, o: Outcome, out: T, rest: seq<bool>)
    requires (r.Undefined? || r == r') && Agrees(r', o, out, rest)
    ensures Agrees(r, o, out, rest)
  {
  }

  /** Lines 593-718, after the counts. */
  method InflateDynamicTrees(g: Inflater, nl: nat, nd: nat, nb: nat) returns (o: Outcome)
    requires g.Valid() && 257 <= nl <= 286 && 1 <= nd <= 30 && nb <= 19
    modifies g.reader, g.window, g.window.slide, g.window.register
    ensures g.Valid()
    ensures |g.reader.Rest()| <= |old(g.reader.Rest())|
    ensures Agrees(DynamicTrees(old(g.window.Out()), nl, nd, nb, old(g.reader.Rest())),
                   o, g.window.Out(), g.reader.Rest())
  {
    hide SlidingWindow.Consistent, Spec.InflateTrees, Spec.TreeLengths, DynamicLengths, Spec.LengthCodeLengths;
    hide FlatTree, Agrees, Pow2, Lsb, ToBits, BytesBits, Feed, Steps, Spec.TreeCode;
    ghost var out, r := g.window.Out(), DynamicTrees(g.window.Out(), nl, nd, nb, g.reader.Rest());
    var ll := new nat[316];
    var ok, lens := ReadLengthCode(g, nb, ll);
    if !ok {
      AgreesShort(r, out, g.reader.Rest());
      return OutOfInput;
    }
    var i, tl, bl, P, F := BuildLengthTree(ll, lens);
    if i != 0 {
      AgreesError(r, i, out, g.reader.Rest());
      return Return(i);
    }
    ghost var bits := g.reader.Rest();
    o := ReadTreeLengths(g, tl, bl, ll, nl + nd, lens, P, F);
    ghost var all := ll[..nl + nd];
    if o == Return(0) {
      GoodSplit(all, nl);
    }
    LengthsThenTrees(out, nl, nd, lens, bits, o, all, g.reader.Rest());
    if o != Return(0) {
      return;
    }
    assert ll[..nl] == all[..nl] && ll[nl..nl + nd] == all[nl..];
    ghost var r' := Spec.InflateTrees(all[..nl], all[nl..], out, g.reader.Rest());
    o := InflateTrees(g, ll, nl, nd);
    Adopt(r, r', o, g.window.Out(), g.reader.Rest());
  }

  lemma GoodSplit(all: seq<nat>, nl: nat)
    requires nl <= 286 && nl <= |all| <= nl + 30 && forall t :: 0 <= t < |all| ==> all[t] < 16
    ensures Spec.GoodTrees(all[..nl], all[nl..])
  {
  }

  method InflateDynamic(g: Inflater) returns (o: Outcome)
    requires g.Valid()
    modifies g.reader, g.window, g.window.slide, g.window.register
    ensures g.Valid()
    ensures |g.reader.Rest()| <= |old(g.reader.Rest())|
    ensures Agrees(Spec.InflateDynamic(old(g.window.Out()), old(g.reader.Rest())), o, g.window.Out(), g.reader.Rest())
  {
    hide SlidingWindow.Consistent, DynamicTrees, Spec.InflateDynamic;
    hide Agrees, Pow2, Lsb, ToBits, BytesBits, Feed, Steps;
    ghost var out, r := g.window.Out(), Spec.InflateDynamic(g.window.Out(), g.reader.Rest());
    DynamicStep(out, g.reader.Rest());
    var ok, nl, nd, nb;
    ok, nl := ReadNumber(g, 257, 5);
    if ok {
      ok, nd := ReadNumber(g, 1, 5);
      if ok {
        ok, nb := ReadNumber(g, 4, 4);
        if ok {
          if nl > 286 || nd > 30 {
            AgreesError(r, 1, out, g.reader.Rest());
            return Return(1);
          }
          o := InflateDynamicTrees(g, nl, nd, nb);
          return;
        }
      }
    }
    AgreesShort(r, out, g.reader.Rest());
    o := OutOfInput;
  }

  // ---- Blocks and the stream: lines 722-810 -----------------------------------------

  method InflateBlock(g: Inflater, kind: nat) returns (o: Outcome)
    requires g.Valid()
    modifies g.reader, g.window, g.window.slide, g.window.register
    ensures g.Valid()
    ensures |g.reader.Rest()| <= |old(g.reader.Rest())|
    ensures Agrees(Spec.InflateBlock(old(g.window.Out()), kind, old(g.reader.Rest())), o, g.window.Out(),
        g.reader.Rest())
  {
    hide SlidingWindow.Consistent, Spec.InflateDynamic, Spec.InflateStored, Spec.InflateFixed;
    hide Agrees, Pow2, Lsb, ToBits, BytesBits, Feed, Steps;
    if kind == 2 {
      o := InflateDynamic(g);
    } else if kind == 0 {
      o := InflateStored(g);
    } else if kind == 1 {
      o := InflateFixed(g);
    } else {
      o := Return(2);
      AgreesError(Spec.InflateBlock(g.window.Out(), kind, g.reader.Rest()), 2, g.window.Out(), g.reader.Rest());
    }
  }

  /** The reference stream, one block further. */
  lemma StreamStep(out: seq<byte>, bits: seq<bool>)
    ensures var r := Spec.Inflate(out, bits);
      && (r.Ok? ==> |r.rest| <= |bits|)
      && (|bits| < 3 ==> r == Spec.Short)
      && (|bits| >= 3 ==> Lsb(bits[..1]) == Bit(bits[0]) && bits[1..][..2] == bits[1..3] && bits[1..][2..] == bits[3..])
  {
    if |bits| >= 3 {
      assert bits[..1][1..] == [];
    }
  }

  /** A block that ends the call ends it for the stream too. */
  lemma BlockEnds(out: seq<byte>, bits: seq<bool>, o: Outcome, out': seq<byte>, rest: seq<bool>)
    requires |bits| >= 3 && o != Return(0)
    requires Agrees(Spec.InflateBlock(out, Lsb(bits[1..3]), bits[3..]), o, out', rest)
    ensures Agrees(Spec.Inflate(out, bits), o, out', rest)
  {
    hide Spec.InflateBlock, Lsb;
    var b := Spec.InflateBlock(out, Lsb(bits[1..3]), bits[3..]);
    if b.Ok? && !bits[0] {
      StreamStep(b.value, b.rest);
    }
  }

  /** After a block the stream goes on, or is complete. */
  lemma BlockGoesOn(out: seq<byte>, bits: seq<bool>, out': seq<byte>, rest: seq<bool>)
    requires |bits| >= 3
    requires Agrees(Spec.InflateBlock(out, Lsb(bits[1..3]), bits[3..]), Return(0), out', rest)
    ensures var r := Spec.Inflate(out, bits);
      r.Undefined? || r == if bits[0] then Spec.Ok(out', rest) else Spec.Inflate(out', rest)
  {
    hide Spec.InflateBlock, Lsb;
  }

  /** Lines 737-759: the header of a block, and the block. */
  method NextBlock(g: Inflater) returns (o: Outcome, last: bool)
    requires g.Valid()
    modifies g.reader, g.window, g.window.slide, g.window.register
    ensures g.Valid()
    ensures var r := Spec.Inflate(old(g.window.Out()), old(g.reader.Rest()));
      (o != Return(0) ==> Agrees(r, o, g.window.Out(), g.reader.Rest())) &&
      (o == Return(0) ==>
         (r.Undefined? ||
          r == if last then Spec.Ok(g.window.Out(), g.reader.Rest())
               else Spec.Inflate(g.window.Out(), g.reader.Rest())))
    ensures o == Return(0) ==> |g.reader.Rest()| < |old(g.reader.Rest())|
  {
    hide SlidingWindow.Consistent, Spec.InflateBlock, Spec.Inflate;
    hide Agrees, Pow2, Lsb, ToBits, BytesBits, Feed, Steps;
    ghost var out, bits := g.window.Out(), g.reader.Rest();
    StreamStep(out, bits);
    last := false;
    var ok, e := ReadNumber(g, 0, 1);
    if !ok {
      AgreesShort(Spec.Inflate(out, bits), out, g.reader.Rest());
      return OutOfInput, last;
    }
    last := e == 1;
    var t;
    ok, t := ReadNumber(g, 0, 2);
    if !ok {
      AgreesShort(Spec.Inflate(out, bits), out, g.reader.Rest());
      return OutOfInput, last;
    }
    o := InflateBlock(g, t);
    if o == Return(0) {
      BlockGoesOn(out, bits, g.window.Out(), g.reader.Rest());
    } else {
      BlockEnds(out, bits, o, g.window.Out(), g.reader.Rest());
    }
  }

  /** How a whole call ends: the output, its CRC, and where the input stands. */
  ghost predicate Finished(g: Inflater, bits: seq<bool>, o: Outcome)
    reads g, g.reader, g.window, g.window.register
  {
    var r := Spec.Inflate([], bits);
    r.Undefined? ||
    match o
    case Return(code) =>
      if code != 0 then r == Spec.Err(code)
      else
        && r.Ok? && g.window.output == r.value
        && Xor(g.window.register.crc, Ones()) == Crc32(r.value)
        && g.reader.inptr <= |g.reader.input|
        && 8 * (|g.reader.input| - g.reader.inptr) == |r.rest| - |r.rest| % 8
    case Stopped => r == Spec.Halt
    case OutOfInput => r.Ok? ==> |r.rest| < 16
    case ReadUnset => false
  }

  /** inflate(): lines 769-810. */
  method Inflate(g: Inflater) returns (o: Outcome)
    requires g.Valid() && g.window.output == []
    modifies g.reader, g.window, g.window.slide, g.window.register
    ensures Finished(g, BytesBits(g.reader.input[old(g.reader.inptr)..]), o)
  {
    hide Pow2, Lsb, BytesBits, Feed, Steps, Spec.Inflate;
    ghost var bits := BytesBits(g.reader.input[g.reader.inptr..]);
    g.window.wp := 0;
    g.reader.bk := 0;
    g.reader.bb := 0;
    EmptyBuffer(bits);
    ghost var r := Spec.Inflate([], bits);
    assert g.window.Out() == [];
    var e := false;
    while !e
      invariant g.Valid()
      invariant r.Undefined? ||
        r == if e then Spec.Ok(g.window.Out(), g.reader.Rest()) else Spec.Inflate(g.window.Out(), g.reader.Rest())
      decreases if e then 0 else 1 + |g.reader.Rest()|
    {
      o, e := NextBlock(g);
      if o != Return(0) {
        return;
      }
    }
    g.reader.UndoLookahead();
    g.window.FlushWindow();
    o := Return(0);
  }

  lemma EmptyBuffer(bits: seq<bool>)
    ensures 0 < Pow2(0) && ToBits(0, 0) + bits == bits
  {
  }
}
