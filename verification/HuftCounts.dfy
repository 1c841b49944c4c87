// The first phases of huft_build (boot/zBoot/inflate.c:135-192): counting the
// code lengths, checking and filling out the code space, and sorting the
// symbols by code length.
module HuftCounts {
  import opened Bits
  import opened Canonical
  import opened HuftTables
  import opened HuftLoop

  // ---- Kraft sum ----------------------------------------------------------

  /** The Kraft sum of a count table up to length `k`, scaled by Pow2(BMAX). */
  function Weight(c: seq<nat>, k: nat): nat
    requires k <= BMAX < |c|
  {
    if k == 0 then 0 else Weight(c, k - 1) + c[k] * Pow2(BMAX - k)
  }

  lemma {:induction false} WeightIsEnd(c: seq<nat>, k: nat)
    requires 1 <= k <= BMAX == |c| - 1
    ensures Weight(c, k) == End(c, k, BMAX)
  {
    hide Pow2;
    if k == 1 {
      assert Weight(c, 0) == 0;
    } else {
      WeightIsEnd(c, k - 1);
      StartAfterEnd(c, k - 1, BMAX);
      Distribute(First(c, k), c[k], Pow2(BMAX - k));
    }
  }

  lemma {:induction false} WeightStep(c: seq<nat>, c': seq<nat>, j: nat, k: nat)
    requires k <= BMAX < |c| == |c'| && j < |c| && c' == c[j := c[j] + 1]
    ensures Weight(c', k) == Weight(c, k) + if 1 <= j <= k then Pow2(BMAX - j) else 0
  {
    hide Pow2;
    if k > 0 {
      WeightStep(c, c', j, k - 1);
      if j == k {
        Distribute(c[k], 1, Pow2(BMAX - k));
      }
    }
  }

  /** The Kraft sum by symbol is the Kraft sum by length. */
  lemma {:induction false} KraftIsWeight(lens: seq<nat>)
    requires ValidLengths(lens)
    ensures KraftSum(lens) == Weight(Counts(lens), BMAX)
  {
    if lens == [] {
      NoWeight(BMAX);
    } else {
      var n := |lens| - 1;
      KraftIsWeight(lens[..n]);
      var c, c' := Counts(lens[..n]), Counts(lens);
      assert c' == c[lens[n] := c[lens[n]] + 1];
      WeightStep(c, c', lens[n], BMAX);
    }
  }

  lemma {:induction false} NoWeight(k: nat)
    requires k <= BMAX
    ensures Weight(Counts([]), k) == 0
  {
    if k > 0 {
      NoWeight(k - 1);
    }
  }

  lemma {:induction false} EmptyTail(c: seq<nat>, g: nat, k: nat)
    requires 1 <= g <= k <= BMAX == |c| - 1 && forall j :: g < j <= k ==> c[j] == 0
    ensures End(c, k, BMAX) == End(c, g, BMAX)
    decreases k
  {
    if g < k {
      EmptyTail(c, g, k - 1);
      StartAfterEnd(c, k - 1, BMAX);
    }
  }

  /** The Kraft sum compares with 1 as the code numbers compare with the code space. */
  lemma KraftMeaning(lens: seq<nat>, g: nat)
    requires ValidLengths(lens) && 1 <= g <= BMAX
    requires forall j :: g < j <= BMAX ==> CountOf(lens, j) == 0
    ensures KraftSum(lens) == (First(Counts(lens), g) + Counts(lens)[g]) * Pow2(BMAX - g)
    ensures KraftSum(lens) > Pow2(BMAX) <==> First(Counts(lens), g) + Counts(lens)[g] > Pow2(g)
    ensures KraftSum(lens) < Pow2(BMAX) <==> First(Counts(lens), g) + Counts(lens)[g] < Pow2(g)
  {
    hide Pow2;
    var c := Counts(lens);
    KraftIsWeight(lens);
    WeightIsEnd(c, BMAX);
    EmptyTail(c, g, BMAX);
    Pow2Add(g, BMAX - g);
    CompareScaled(First(c, g) + c[g], Pow2(g), Pow2(BMAX - g));
  }

  // ---- Counting: lines 135-140 --------------------------------------------

  method CountLengths(b: seq<nat>) returns (c: array<nat>)
    requires ValidLengths(b) && |b| >= 1
    ensures fresh(c) && c[..] == Counts(b)
  {
    c := new nat[BMAX + 1](_ => 0);
    var i := 0;
    assert b[..0] == [];
    while i < |b|
      invariant i <= |b|
      invariant forall k :: 0 <= k <= BMAX ==> c[k] == CountOf(b[..i], k)
    {
      assert b[..i + 1][..i] == b[..i];
      c[b[i]] := c[b[i]] + 1;
      i := i + 1;
    }
    assert b[..i] == b;
  }

  // ---- Bounds: lines 150-164 ----------------------------------------------

  function Clamp(m: nat, lo: nat, hi: nat): nat
  {
    var l := if m < lo then lo else m;
    if l > hi then hi else l
  }

  method FindBounds(c: array<nat>, m: nat) returns (j: nat, g: nat, l: nat)
    requires c.Length == BMAX + 1 && exists t :: 1 <= t <= BMAX && c[t] > 0
    ensures 1 <= j <= g <= BMAX && c[j] > 0 && c[g] > 0
    ensures forall t :: 1 <= t < j ==> c[t] == 0
    ensures forall t :: g < t <= BMAX ==> c[t] == 0
    ensures l == Clamp(m, j, g)
  {
    l := m;
    j := 1;
    while j <= BMAX && c[j] == 0
      invariant 1 <= j <= BMAX + 1
      invariant forall t :: 1 <= t < j ==> c[t] == 0
    {
      j := j + 1;
    }
    if l < j {
      l := j;
    }
    g := BMAX;
    while g > 0 && c[g] == 0
      invariant 0 <= g <= BMAX
      invariant forall t :: g < t <= BMAX ==> c[t] == 0
    {
      g := g - 1;
    }
    if l > g {
      l := g;
    }
  }

  // ---- Filling out the code: lines 168-174 --------------------------------

  lemma OverfullLater(c: seq<nat>, k: nat, g: nat)
    requires 1 <= k <= g < |c| && First(c, k) + c[k] > Pow2(k)
    ensures First(c, g) + c[g] > Pow2(g)
  {
    hide Pow2, First;
    var u, a, e := Pow2(g - k), First(c, k) + c[k], First(c, g) + c[g];
    assert a * u <= e by {
      EndMonotone(c, k, g, g);
      Pow2IsOne();
    }
    Pow2Add(k, g - k);
    MulStep(u, Pow2(k), a);
    Commute(u, a, Pow2(k));
  }

  method FillOut(c: array<nat>, j0: nat, g: nat) returns (y: int)
    requires c.Length == BMAX + 1 && 1 <= j0 <= g <= BMAX
    requires forall t :: 1 <= t < j0 ==> c[t] == 0
    modifies c
    ensures y < 0 <==> First(old(c[..]), g) + old(c[g]) > Pow2(g)
    ensures y < 0 ==> c[..] == old(c[..])
    ensures y >= 0 ==> y == Pow2(g) - First(old(c[..]), g) - old(c[g])
    ensures y >= 0 ==> c[..] == old(c[..])[g := old(c[g]) + y] && Full(c[..], g)
  {
    hide Pow2, First;
    ghost var c0 := c[..];
    var j := j0;
    NothingBefore(c0, j);
    y := Pow2(j);
    while j < g
      invariant j0 <= j <= g && c[..] == c0
      invariant y == Pow2(j) - First(c0, j)
    {
      y := y - c[j];
      if y < 0 {
        OverfullLater(c0, j, g);
        return;
      }
      NextFirst(c0, j);
      DoublePow(j);
      y := 2 * y;
      j := j + 1;
    }
    y := y - c[g];
    if y < 0 {
      return;
    }
    c[g] := c[g] + y;
    FirstAgrees(c0, c[..], g);
  }

  lemma DoublePow(j: nat)
    ensures Pow2(j + 1) == 2 * Pow2(j)
  {
  }

  // ---- Sorting the symbols: lines 178-192 ---------------------------------

  lemma {:induction false} OffsetAgrees(c: seq<nat>, c': seq<nat>, k: nat)
    requires k <= |c| && k <= |c'| && forall j :: 1 <= j < k ==> c[j] == c'[j]
    ensures Offset(c, k) == Offset(c', k)
  {
    if k > 1 {
      OffsetAgrees(c, c', k - 1);
    }
  }

  lemma {:induction false} OffsetSum(c: seq<nat>, c': seq<nat>, j: nat, k: nat)
    requires k <= |c| == |c'| && j < |c| && c' == c[j := c[j] + 1]
    ensures Offset(c', k) == Offset(c, k) + if 1 <= j < k then 1 else 0
  {
    if k > 1 {
      OffsetSum(c, c', j, k - 1);
    }
  }

  lemma {:induction false} NoOffset(k: nat)
    requires k <= BMAX + 1
    ensures Offset(Counts([]), k) == 0
  {
    if k > 1 {
      NoOffset(k - 1);
    }
  }

  /** Every symbol is counted once, under its length or among the unused. */
  lemma {:induction false} CountsTotal(lens: seq<nat>)
    requires ValidLengths(lens)
    ensures Offset(Counts(lens), BMAX + 1) + CountOf(lens, 0) == |lens|
  {
    if lens == [] {
      NoOffset(BMAX + 1);
    } else {
      var n := |lens| - 1;
      CountsTotal(lens[..n]);
      var c, c' := Counts(lens[..n]), Counts(lens);
      assert c' == c[lens[n] := c[lens[n]] + 1];
      OffsetSum(c, c', lens[n], BMAX + 1);
    }
  }

  /** Symbols with codes before all others of their length, or of smaller length, come first. */
  ghost predicate ValuesUpTo(b: seq<nat>, v: seq<Cell>, i: nat)
    requires i <= |b| && ValidLengths(b)
  {
    forall sym {:trigger b[sym]} :: 0 <= sym < i && b[sym] != 0 ==>
      var at := Offset(Counts(b), b[sym]) + CountOf(b[..sym], b[sym]);
      at < |v| && v[at] == Sym(sym)
  }

  /** The value table of `b`: coded symbols in code order, nothing after them. */
  ghost predicate Values(b: seq<nat>, v: seq<Cell>)
    requires ValidLengths(b)
  {
    && |v| == N_MAX
    && ValuesUpTo(b, v, |b|)
    && forall j :: Offset(Counts(b), BMAX + 1) <= j < |v| ==> v[j] == Unset
  }

  /** Different symbols get different places. */
  lemma PlacesDiffer(b: seq<nat>, s1: nat, s2: nat)
    requires ValidLengths(b) && s1 < s2 < |b| && b[s1] != 0 && b[s2] != 0
    ensures Offset(Counts(b), b[s1]) + CountOf(b[..s1], b[s1])
         != Offset(Counts(b), b[s2]) + CountOf(b[..s2], b[s2])
  {
    hide Offset;
    CountPrefix(b, s1, b[s1]);
    CountPrefix(b, s2, b[s2]);
    if b[s1] < b[s2] {
      OffsetGrows(Counts(b), b[s1], b[s2]);
    } else if b[s2] < b[s1] {
      OffsetGrows(Counts(b), b[s2], b[s1]);
    } else {
      assert b[..s2][..s1] == b[..s1];
      CountPrefix(b[..s2], s1, b[s1]);
    }
  }

  lemma PlaceInRange(b: seq<nat>, sym: nat)
    requires ValidLengths(b) && sym < |b| && b[sym] != 0
    ensures Offset(Counts(b), b[sym]) + CountOf(b[..sym], b[sym]) < Offset(Counts(b), BMAX + 1) <= |b|
  {
    hide Offset;
    CountPrefix(b, sym, b[sym]);
    OffsetGrows(Counts(b), b[sym], BMAX);
    OffsetStep(Counts(b), BMAX);
    CountsTotal(b);
  }

  method Offsets(c: array<nat>, g: nat, ghost b: seq<nat>) returns (x: array<nat>)
    requires c.Length == BMAX + 1 && 1 <= g <= BMAX && ValidLengths(b)
    requires forall t :: 1 <= t < g ==> c[t] == Counts(b)[t]
    ensures fresh(x) && x.Length == BMAX + 1
    ensures forall t :: 1 <= t <= g ==> x[t] == Offset(Counts(b), t)
  {
    x := new nat[BMAX + 1];
    x[1] := 0;
    var j, i := 0, 1;
    while i < g
      invariant 1 <= i <= g
      invariant j == Offset(Counts(b), i)
      invariant forall t :: 1 <= t <= i ==> x[t] == Offset(Counts(b), t)
    {
      j := j + c[i];
      i := i + 1;
      x[i] := j;
    }
  }

  lemma ValuesStep(b: seq<nat>, v: seq<Cell>, v': seq<Cell>, i: nat)
    requires ValidLengths(b) && i < |b| && ValuesUpTo(b, v, i)
    requires b[i] == 0 ==> v' == v
    requires b[i] != 0 ==>
      var at := Offset(Counts(b), b[i]) + CountOf(b[..i], b[i]);
      at < |v| && v' == v[at := Sym(i)]
    ensures ValuesUpTo(b, v', i + 1)
  {
    hide Offset, CountOf, Counts;
    forall sym | 0 <= sym < i + 1 && b[sym] != 0
      ensures var at := Offset(Counts(b), b[sym]) + CountOf(b[..sym], b[sym]);
        at < |v'| && v'[at] == Sym(sym)
    {
      if sym < i && b[i] != 0 {
        PlacesDiffer(b, sym, i);
      }
    }
  }

  method SortValues(b: seq<nat>, x: array<nat>, g: nat) returns (v: array<Cell>)
    requires ValidLengths(b) && 1 <= |b| <= N_MAX && x.Length == BMAX + 1
    requires 1 <= g <= BMAX && forall i :: 0 <= i < |b| ==> b[i] <= g
    requires forall t :: 1 <= t <= g ==> x[t] == Offset(Counts(b), t)
    modifies x
    ensures fresh(v) && Values(b, v[..])
  {
    hide Offset, CountOf, Counts;
    v := new Cell[N_MAX](_ => Unset);
    var i := 0;
    forall t ensures CountOf(b[..0], t) == 0 { NoneCounted(b, t); }
    while i < |b|
      invariant i <= |b|
      invariant forall t :: 1 <= t <= g ==> x[t] == Offset(Counts(b), t) + CountOf(b[..i], t)
      invariant ValuesUpTo(b, v[..], i)
      invariant forall j :: Offset(Counts(b), BMAX + 1) <= j < N_MAX ==> v[j] == Unset
    {
      var j := b[i];
      ghost var v0 := v[..];
      if j != 0 {
        PlaceInRange(b, i);
        v[x[j]] := Sym(i);
        x[j] := x[j] + 1;
      }
      ValuesStep(b, v0, v[..], i);
      forall t ensures CountOf(b[..i + 1], t) == CountOf(b[..i], t) + Bit(b[i] == t) { CountOne(b, i, t); }
      i := i + 1;
    }
  }

  lemma NoneCounted(b: seq<nat>, t: nat)
    ensures CountOf(b[..0], t) == 0
  {
  }

  lemma CountOne(b: seq<nat>, i: nat, t: nat)
    requires i < |b|
    ensures CountOf(b[..i + 1], t) == CountOf(b[..i], t) + Bit(b[i] == t)
  {
    assert b[..i + 1][..i] == b[..i];
  }
}
