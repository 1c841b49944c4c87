// Walking the linked tables as inflate_codes does (boot/zBoot/inflate.c:353-362)
// decodes one canonical Huffman symbol.
module HuffmanDecode {
  import opened Bits
  import opened Canonical
  import opened HuftTables
  import opened HuftCounts
  import opened HuftMeaning
  import opened Huffman
  import Spec = InflateSpec

  /** `t` and `m` are what huft_build returned for `lens`. */
  ghost predicate TreeFor(lens: seq<nat>, s0: nat, d: seq<nat>, e: seq<nat>,
                          P: Plan, F: Forest, t: array?<Huft>, m: nat)
    reads Tables(F)
  {
    && |lens| >= 1 && ValidLengths(lens) && ListsCover(|lens|, s0, d, e)
    && if Longest(lens) == 0 then t == null && m == 0
       else t != null && PlanFor(P, lens, s0, d, e) && Tree(P, F, t, m)
  }

  /** Which of its two forms a good slot has shows in its operation code. */
  lemma SlotForm(P: Plan, F: Forest, T: nat, S: seq<bool>, slot: Huft)
    requires ValidPlan(P) && T < |F.node| == |F.tabs| && SlotGood(P, F, T, S, slot)
    requires Narrow(P, F.node) && Shape(P, F)
    ensures IsLeaf(slot) ==> exists k: nat, r: nat :: CodeSlot(P, F.node[T], S, slot, k, r)
    ensures !IsLeaf(slot) ==> exists T': nat :: LinkSlot(F, T, S, slot, T')
  {
    hide First, Offset;
    if k: nat, r: nat :| CodeSlot(P, F.node[T], S, slot, k, r) {
      assert IsLeaf(slot);
    } else {
      var T': nat :| LinkSlot(F, T, S, slot, T');
      assert NodeOK(P, F.node[T'], |F.mem[T']|);
    }
  }

  lemma PlanFirst(P: Plan, lens: seq<nat>, s0: nat, d: seq<nat>, e: seq<nat>, k: nat)
    requires ValidLengths(lens) && ListsCover(|lens|, s0, d, e) && PlanFor(P, lens, s0, d, e) && 1 <= k <= P.g
    ensures First(P.c, k) == First(Counts(lens), k)
  {
    FirstAgrees(P.c, Counts(lens), k);
  }

  /** A code of `lens` at the head of the stream: the slot holds its symbol. */
  lemma CodedSlot(P: Plan, lens: seq<nat>, s0: nat, d: seq<nat>, e: seq<nat>,
                  n: Node, S: seq<bool>, R: seq<bool>, slot: Huft, k: nat, r: nat)
    requires ValidLengths(lens) && ListsCover(|lens|, s0, d, e) && PlanFor(P, lens, s0, d, e)
    requires CodeSlot(P, n, S, slot, k, r) && S <= R && r < CountOf(lens, k)
    ensures Decode(lens, R) == Symbol(Nth(lens, k, r), k)
    ensures slot == WithBits(SymbolEntry(Nth(lens, k, r), s0, d, e), k - |n.p|)
  {
    hide First, Offset, CountOf, Pos;
    PlanFirst(P, lens, s0, d, e, k);
    CountsAt(lens, k);
    assert S[..k] == R[..k];
    assert CodeAt(Counts(lens), k, r, R);
    DecodeFinds(lens, k, r, R, 1);
    assert CodeEntry(P, lens, s0, d, e, k, r);
  }

  /** A spare code at the head of the stream: no code of `lens` fits. */
  lemma SpareSlot(P: Plan, lens: seq<nat>, s0: nat, d: seq<nat>, e: seq<nat>,
                  n: Node, S: seq<bool>, R: seq<bool>, slot: Huft, k: nat, r: nat)
    requires ValidLengths(lens) && ListsCover(|lens|, s0, d, e) && PlanFor(P, lens, s0, d, e)
    requires CodeSlot(P, n, S, slot, k, r) && S <= R && r >= CountOf(lens, k)
    ensures Decode(lens, R) == NoSuchCode
    ensures slot == (if Offset(P.c, P.g) + r >= |lens| then WithBits(BAD_CODE, k - |n.p|) else Undef)
    ensures slot == Undef ==> CountOf(lens, 0) > 0
  {
    hide First, Offset, CountOf, Pos;
    assert k == P.g;
    assert SpareEntry(P, lens, r);
    if slot == Undef {
      SpareIndex(P, lens, s0, d, e, r);
    }
    forall k', r' | 1 <= k'
      ensures !CodeAt(Counts(lens), k', r', R)
    {
      if CodeAt(Counts(lens), k', r', R) {
        OnlyOneCode(P, lens, s0, d, e, S, R, k, r, k', r');
      }
    }
    assert S[..k] == R[..k];
    DecodeFails(lens, R, 1);
  }

  /** A slot holds a spare code exactly where no code of `lens` fits. */
  lemma SpareExact(P: Plan, lens: seq<nat>, s0: nat, d: seq<nat>, e: seq<nat>,
                   n: Node, S: seq<bool>, R: seq<bool>, slot: Huft, k: nat, r: nat)
    requires ValidLengths(lens) && ListsCover(|lens|, s0, d, e) && PlanFor(P, lens, s0, d, e)
    requires CodeSlot(P, n, S, slot, k, r) && S <= R
    ensures Decode(lens, R) == NoSuchCode <==> r >= CountOf(lens, k)
    ensures Decode(lens, R) == NoSuchCode ==>
      slot == if Offset(P.c, P.g) + r >= |lens| then WithBits(BAD_CODE, k - |n.p|) else Undef
  {
    hide First, Offset, CountOf, Pos, PlanFor, CodeSlot, Decode;
    if r < CountOf(lens, k) {
      CodedSlot(P, lens, s0, d, e, n, S, R, slot, k, r);
    } else {
      SpareSlot(P, lens, s0, d, e, n, S, R, slot, k, r);
    }
  }

  lemma OneZeroCounts()
    ensures ValidLengths([1, 0])
    ensures forall k: nat :: CountOf([1, 0], k) == if k <= 1 then 1 else 0
    ensures Longest([1, 0]) == 1 && First(Counts([1, 0]), 1) == 0 && KraftSum([1, 0]) < Pow2(BMAX)
  {
    forall k: nat
      ensures CountOf([1, 0], k) == if k <= 1 then 1 else 0
    {
      assert [] + [1] == [1] && [1] + [0] == [1, 0];
      CountMore([], 1, k);
      CountMore([1], 0, k);
    }
    hide CountOf;
    assert Pow2(1) == 2;
    hide Pow2;
    KraftMeaning([1, 0], 1);
  }

  lemma TrueWord(P: Plan)
    requires ValidPlan(P) && P.g == 1
    ensures Word(P, [true], 1) && First(P.c, 1) == 0 && P.c[1] == 2 && Offset(P.c, 1) == 0
  {
    assert Pow2(1) == 2;
    assert Msb([true]) == 1 by { assert [true][1..] == []; }
  }

  /** One distance of 1 bit and one that is not used: the pattern 1 reads unset memory. */
  lemma SpareUnset(P: Plan, s0: nat, d: seq<nat>, e: seq<nat>)
    requires ListsCover(2, s0, d, e) && PlanFor(P, [1, 0], s0, d, e)
    ensures KraftSum([1, 0]) < Pow2(BMAX) && Longest([1, 0]) == 1
    ensures Word(P, [true], 1) && NoEntry(P, 1, 1) && Decode([1, 0], [true]) == NoSuchCode
  {
    hide CountOf, Offset, First, Pos, Pow2, KraftSum, Decode, ValidPlan, CodeEntry;
    var lens, R := [1, 0], [true];
    OneZeroCounts();
    TrueWord(P);
    assert SpareEntry(P, lens, 1);
    forall k, r | 1 <= k
      ensures !CodeAt(Counts(lens), k, r, R)
    {
      assert R[..1] == R;
      CountsAt(lens, 1);
    }
    FailsOne(lens, R);
  }

  lemma FailsOne(lens: seq<nat>, R: seq<bool>)
    requires ValidLengths(lens) && |R| >= Longest(lens)
    requires forall k, r :: 1 <= k ==> !CodeAt(Counts(lens), k, r, R)
    ensures Decode(lens, R) == NoSuchCode
  {
    DecodeFails(lens, R, 1);
  }

  lemma SpareIndex(P: Plan, lens: seq<nat>, s0: nat, d: seq<nat>, e: seq<nat>, r: nat)
    requires ValidLengths(lens) && ListsCover(|lens|, s0, d, e) && PlanFor(P, lens, s0, d, e)
    requires r >= CountOf(lens, P.g) && Offset(P.c, P.g) + r < |lens|
    ensures CountOf(lens, 0) > 0
  {
    hide First, Offset, CountOf;
    CodedSymbols(lens, P.g);
    OffsetAgrees(P.c, Counts(lens), P.g);
  }

  lemma OnlyOneCode(P: Plan, lens: seq<nat>, s0: nat, d: seq<nat>, e: seq<nat>,
                    S: seq<bool>, R: seq<bool>, k: nat, r: nat, k': nat, r': nat)
    requires ValidLengths(lens) && ListsCover(|lens|, s0, d, e) && PlanFor(P, lens, s0, d, e)
    requires CodeAt(P.c, k, r, S) && S <= R && k == P.g
    requires CodeAt(Counts(lens), k', r', R)
    ensures k' == k && r' == r
  {
    hide First, Offset, CountOf, Pos;
    CountsAt(lens, k');
    assert k' <= P.g;
    PlanFirst(P, lens, s0, d, e, k');
    var w := R[..k];
    assert w[..k'] == R[..k'] && w[..k] == S[..k];
    assert CodeAt(P.c, k', r', w) && CodeAt(P.c, k, r, w);
    PrefixFree(P.c, k, r, k', r', w, BMAX);
  }

  /** What one table lookup chain found. */
  datatype Fetched =
    | Entry(e: nat, n: nat)   // the symbol's operation and value
    | Invalid                 // e == 99
    | Unwritten            // memory that was never written
    | NoInput                 // the input ended

  ghost predicate FetchedRight(lens: seq<nat>, s0: nat, d: seq<nat>, e: seq<nat>,
                               before: seq<bool>, after: seq<bool>, f: Fetched, sym: nat)
    requires ValidLengths(lens) && ListsCover(|lens|, s0, d, e)
  {
    var r := Spec.ReadSymbol(lens, before);
    match f
    case Entry(op, n) =>
      r == Spec.Ok(sym, after) && sym < |lens| &&
      SymbolEntry(sym, s0, d, e) == Huft(op, 0, n, null) && op <= 16
    case Invalid =>
      || (r.Ok? && r.value == sym && sym < |lens| && SymbolEntry(sym, s0, d, e).e == 99)
      || r == Spec.Err(1) || r.Undefined?
    case Unwritten => r.Undefined?
    case NoInput => |before| < 16
  }

  /** The end of a chain: a leaf slot. */
  lemma LeafRight(P: Plan, F: Forest, lens: seq<nat>, s0: nat, d: seq<nat>, e: seq<nat>,
                  T: nat, S: seq<bool>, R: seq<bool>, slot: Huft) returns (sym: nat)
    requires ValidLengths(lens) && ListsCover(|lens|, s0, d, e) && PlanFor(P, lens, s0, d, e)
    requires Shape(P, F) && Narrow(P, F.node) && T < |F.node|
    requires SlotGood(P, F, T, S, slot) && S <= R && IsLeaf(slot)
    ensures slot.Undef? ==> FetchedRight(lens, s0, d, e, R, [], Unwritten, sym)
    ensures slot.Huft? && slot.e == 99 ==> FetchedRight(lens, s0, d, e, R, [], Invalid, sym)
    ensures slot.Huft? && slot.e != 99 ==> |F.node[T].p| + slot.b <= |S|
    ensures slot.Huft? && slot.e != 99 ==>
      FetchedRight(lens, s0, d, e, R, R[|F.node[T].p| + slot.b..], Entry(slot.e, slot.n), sym)
  {
    hide First, Offset, CountOf, Pos, Nth, Decode, ValidPlan;
    SlotForm(P, F, T, S, slot);
    var k: nat, r: nat :| CodeSlot(P, F.node[T], S, slot, k, r);
    if r < CountOf(lens, k) {
      CodedSlot(P, lens, s0, d, e, F.node[T], S, R, slot, k, r);
      sym := Nth(lens, k, r);
    } else {
      SpareSlot(P, lens, s0, d, e, F.node[T], S, R, slot, k, r);
      sym := 0;
    }
  }
}
