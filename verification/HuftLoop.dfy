// huft_build (boot/zBoot/inflate.c:99-303): from code lengths to linked lookup
// tables.  The C function's phases are separate methods here; the arrays, the
// stack of tables and the bit tricks are those of the source.
module HuftLoop {
  import opened Bits
  import opened Canonical
  import opened HuftTables
  import opened HuftSteps

  const N_MAX: nat := 288

  /** A slot of the value table v[]; the source leaves unused slots unset. */
  datatype Cell = Unset | Sym(sym: nat)

  // ---- Bit operations of the C code on unsigned numbers -------------------

  /** i & j, for j a power of two or zero. */
  predicate HasBit(i: nat, j: nat) { j > 0 && (i / j) % 2 == 1 }

  /** i ^ j, for j a power of two or zero. */
  function FlipBit(i: nat, j: nat): nat
  {
    if HasBit(i, j) then (if i >= j then i - j else 0) else i + j
  }

  // ---- How many bits a new table is indexed by: lines 223-235 -------------

  /** The codes of at most w + j bits use up the `w`-bit prefix number `M`. */
  ghost predicate UsedUp(c: seq<nat>, M: nat, w: nat, j: nat)
  {
    w + j < |c| && (M + 1) * Pow2(j) <= First(c, w + j) + c[w + j]
  }

  lemma EndPosIs(P: Plan, p: seq<bool>)
    requires |p| <= P.g
    ensures EndPos(P, p) == (Msb(p) + 1) * Pow2(P.g - |p|)
  {
    hide Pos, Pow2;
    PosScale(p, P.g);
    Distribute(Msb(p), 1, Pow2(P.g - |p|));
  }

  lemma UsedUpIsClosed(P: Plan, p: seq<bool>, j: nat)
    requires |P.c| == BMAX + 1 && 1 <= |p| + j <= P.g <= BMAX
    ensures UsedUp(P.c, Msb(p), |p|, j) <==> Closed(P, p, j)
  {
    hide Pos, Pow2, First;
    EndPosIs(P, p);
    Pow2Add(j, P.g - |p| - j);
    Rescale(Msb(p) + 1, Pow2(j), Pow2(P.g - |p| - j), First(P.c, |p| + j) + P.c[|p| + j]);
  }

  lemma Rescale(m: nat, a: nat, u: nat, q: nat)
    requires u > 0
    ensures m * a <= q <==> m * (a * u) <= q * u
  {
    assert m * (a * u) == (m * a) * u;
    if m * a <= q {
      MulLe(m * a, q, u);
    } else {
      MulStep(u, q, m * a);
    }
  }

  /** Codes shorter than the first one below a prefix leave all of that prefix free. */
  lemma FreeBefore(c: seq<nat>, k: nat, w: nat, r: nat, j: nat, M: nat)
    requires 1 <= w + j < k < |c| && First(c, k) + r == M * Pow2(k - w)
    ensures !UsedUp(c, M, w, j)
  {
    var q, u := First(c, w + j) + c[w + j], Pow2(k - w - j);
    EndBeforeStart(c, w + j, k, k);
    assert Pow2(0) == 1;
    assert q * u <= M * Pow2(k - w);
    Pow2Add(j, k - w - j);
    Rescale(M, Pow2(j), u, q);
    if (M + 1) * Pow2(j) <= q {
      Rescale(M + 1, Pow2(j), u, q);
      Distribute(M, 1, Pow2(k - w));
    }
  }

  lemma FullUsesUp(c: seq<nat>, g: nat, w: nat, k: nat, r: nat, M: nat)
    requires Full(c, g) && w < k <= g && r < c[k] && First(c, k) + r == M * Pow2(k - w)
    ensures UsedUp(c, M, w, g - w)
  {
    FullBelow(c, k, g);
    Pow2Add(w, k - w);
    if M >= Pow2(w) {
      MulLe(Pow2(w), M, Pow2(k - w));
    }
    MulLe(M + 1, Pow2(w), Pow2(g - w));
    Pow2Add(w, g - w);
  }

  /** The index size the source picks: the smallest that the codes below prefix `M` fill, up to `l`. */
  method TableBits(c: seq<nat>, k: nat, w: nat, a: nat, g: nat, l: nat, ghost M: nat) returns (j: nat)
    requires Full(c, g) && 1 <= l <= g && w < k <= g
    requires a < c[k] && First(c, k) + (c[k] - a - 1) == M * Pow2(k - w)
    ensures k - w <= j
    ensures j <= l ==> w + j <= g && (j == l || UsedUp(c, M, w, j))
    ensures j > l <==> k >= w + l && !UsedUp(c, M, w, l)
    ensures k - w == l ==> j <= l + 1
    ensures w + j <= g + 1
    ensures forall t :: k - w <= t < j ==> !UsedUp(c, M, w, t)
  {
    hide Pow2, First, UsedUp;
    var z := if g - w > l then l else g - w;
    j := k - w;
    var f := Pow2(j);
    StartFree(c, w, k, a, M);
    FullUsesUp(c, g, w, k, c[k] - a - 1, M);
    if k - w > l {
      FreeBefore(c, k, w, c[k] - a - 1, l, M);
    }
    if f > a + 1 {
      f := f - (a + 1);
      j := j + 1;
      while j < z
        invariant k - w < j
        invariant k - w < l ==> j <= z
        invariant k - w >= l ==> j == k - w + 1
        invariant w + j - 1 <= g
        invariant forall t :: k - w <= t < j ==> !UsedUp(c, M, w, t)
        invariant f > 0 && f + First(c, w + j - 1) + c[w + j - 1] == (M + 1) * Pow2(j - 1)
      {
        f := 2 * f;
        NextPatterns(c, w + j, M, j);
        StillFree(c, w, M, j, f);
        if f <= c[w + j] {
          break;
        }
        f := f - c[w + j];
        j := j + 1;
      }
    }
  }

  /** Nor do the codes up to the first one's length use the prefix up, unless as many as it holds are left. */
  lemma StartFree(c: seq<nat>, w: nat, k: nat, a: nat, M: nat)
    requires w < k < |c| && a < c[k] && First(c, k) + (c[k] - a - 1) == M * Pow2(k - w)
    ensures UsedUp(c, M, w, k - w) <==> Pow2(k - w) <= a + 1
    ensures Pow2(k - w) - (a + 1) + First(c, k) + c[k] == (M + 1) * Pow2(k - w)
  {
    hide First, Pow2;
    Distribute(M, 1, Pow2(k - w));
  }

  /** What is left of the prefix after the codes of w + j - 1 bits decides whether w + j bits use it up. */
  lemma StillFree(c: seq<nat>, w: nat, M: nat, j: nat, f: nat)
    requires w + j < |c| && f + First(c, w + j) == (M + 1) * Pow2(j)
    ensures UsedUp(c, M, w, j) <==> f <= c[w + j]
  {
    hide First, Pow2;
  }

  lemma NextPatterns(c: seq<nat>, k: nat, M: nat, j: nat)
    requires 2 <= k < |c| && j >= 1
    ensures First(c, k) == 2 * (First(c, k - 1) + c[k - 1])
    ensures (M + 1) * Pow2(j) == 2 * ((M + 1) * Pow2(j - 1))
  {
    assert (M + 1) * (2 * Pow2(j - 1)) == 2 * ((M + 1) * Pow2(j - 1));
  }

  // ---- Backwards increment: lines 283-286 ---------------------------------

  /** `s` and then ones: the next code word of the same length. */
  ghost function Carry(s: seq<bool>, m: nat): seq<bool>
    requires m < |s|
  {
    s[..m] + [true] + Zeros(|s| - m - 1)
  }

  ghost predicate AllOnes(s: seq<bool>) { forall t :: 0 <= t < |s| ==> s[t] }

  lemma {:induction false} OnesPos(s: seq<bool>, g: nat)
    requires AllOnes(s) && |s| <= g
    ensures Pos(s, g) + Pow2(g - |s|) == Pow2(g)
  {
    if s != [] {
      OnesPos(s[1..], g - 1);
    }
  }

  lemma CarryPos(s: seq<bool>, m: nat, g: nat)
    requires m < |s| <= g && !s[m] && AllOnes(s[m + 1..])
    ensures |Carry(s, m)| == |s|
    ensures Pos(Carry(s, m), g) == Pos(s, g) + Pow2(g - |s|)
  {
    var t := s[..m];
    assert s == t + ([false] + s[m + 1..]);
    PosConcat(t, [false] + s[m + 1..], g);
    assert ([false] + s[m + 1..])[1..] == s[m + 1..];
    OnesPos(s[m + 1..], g - m - 1);
    var u := [true] + Zeros(|s| - m - 1);
    assert Carry(s, m) == t + u;
    PosConcat(t, u, g);
    assert u[1..] == Zeros(|s| - m - 1);
    PosZeros(|s| - m - 1, g - m - 1);
  }

  /** The bit of Lsb(s) at the place value Pow2(m) is s[m]. */
  lemma TopBit(s: seq<bool>, m: nat)
    requires m < |s|
    ensures Lsb(s[..m + 1]) == Lsb(s[..m]) + (if s[m] then Pow2(m) else 0)
    ensures HasBit(Lsb(s[..m + 1]), Pow2(m)) == s[m]
  {
    var t := s[..m + 1];
    assert t[..m] == s[..m] && t[m..] == [s[m]];
    LsbCut(t, m);
    assert Lsb([s[m]]) == Bit(s[m]) by { assert [s[m]][1..] == []; }
    assert t == t[..m] + t[m..];
    LsbConcat(t[..m], t[m..]);
  }

  method BackwardsIncrement(i: nat, k: nat, ghost s: seq<bool>) returns (i': nat, ghost s': seq<bool>)
    requires k == |s| >= 1 && i == Lsb(s)
    ensures AllOnes(s) ==> i' == 0
    ensures !AllOnes(s) ==> |s'| == k && i' == Lsb(s')
    ensures !AllOnes(s) ==> forall g :: g >= k ==> Pos(s', g) == Pos(s, g) + Pow2(g - k)
  {
    hide *;
    i' := i;
    ghost var m: int := k - 1;
    var j := Pow2(k - 1);
    AllLow(s);
    while HasBit(i', j)
      invariant -1 <= m < k
      invariant m >= 0 ==> j == Pow2(m) && i' == Low(s, m + 1)
      invariant m < 0 ==> j == 0 && i' == 0
      invariant OnesFrom(s, m + 1)
      decreases m
    {
      NoBit(i');
      ClearBit(s, m, i', j);
      i' := FlipBit(i', j);
      j := j / 2;
      m := m - 1;
    }
    NoBit(0);
    s' := s;
    if m >= 0 {
      SetBit(s, m, i', j);
      s' := Carry(s, m);
    } else {
      AllHigh(s);
      FlipClear(i', j);
    }
    i' := FlipBit(i', j);
  }

  /** The lower n bits of the reversed word, and that the others are all ones. */
  ghost function Low(s: seq<bool>, n: nat): nat
    requires n <= |s|
  {
    Lsb(s[..n])
  }

  ghost predicate OnesFrom(s: seq<bool>, n: nat)
    requires n <= |s|
  {
    AllOnes(s[n..])
  }

  lemma AllLow(s: seq<bool>)
    ensures Low(s, |s|) == Lsb(s) && OnesFrom(s, |s|)
  {
    assert s[..|s|] == s;
  }

  lemma AllHigh(s: seq<bool>)
    ensures OnesFrom(s, 0) <==> AllOnes(s)
  {
    assert s[0..] == s;
  }

  /** A one is cleared and carried on: one turn of line 284. */
  lemma ClearBit(s: seq<bool>, m: nat, i: nat, j: nat)
    requires m < |s| && j == Pow2(m) && i == Low(s, m + 1) && HasBit(i, j) && OnesFrom(s, m + 1)
    ensures FlipBit(i, j) == Low(s, m) && OnesFrom(s, m)
    ensures m == 0 ==> j / 2 == 0 && FlipBit(i, j) == 0
    ensures m > 0 ==> j / 2 == Pow2(m - 1)
  {
    hide Pos, Lsb, Pow2, HasBit;
    TopBit(s, m);
    Halve(m);
    EmptyLsb(s);
    assert s[m..] == [s[m]] + s[m + 1..];
  }

  /** The first zero is set: line 286. */
  lemma SetBit(s: seq<bool>, m: nat, i: nat, j: nat)
    requires m < |s| && j == Pow2(m) && i == Low(s, m + 1) && !HasBit(i, j) && OnesFrom(s, m + 1)
    ensures !AllOnes(s) && |Carry(s, m)| == |s| && FlipBit(i, j) == Lsb(Carry(s, m))
    ensures forall g :: g >= |s| ==> Pos(Carry(s, m), g) == Pos(s, g) + Pow2(g - |s|)
  {
    hide Pos, Lsb, Pow2, HasBit, FlipBit;
    TopBit(s, m);
    CarryLsb(s, m);
    FlipClear(i, j);
    forall g | g >= |s|
      ensures Pos(Carry(s, m), g) == Pos(s, g) + Pow2(g - |s|)
    {
      CarryPos(s, m, g);
    }
  }

  lemma FlipClear(i: nat, j: nat)
    requires !HasBit(i, j)
    ensures FlipBit(i, j) == i + j
  {
  }

  lemma NoBit(i: nat)
    ensures !HasBit(i, 0)
  {
  }

  lemma PowAtLeast(m: nat)
    ensures Pow2(m) >= 1
  {
  }

  lemma EmptyLsb(s: seq<bool>)
    ensures Lsb(s[..0]) == 0
  {
  }

  lemma Halve(m: nat)
    ensures m >= 1 ==> Pow2(m) / 2 == Pow2(m - 1)
    ensures m == 0 ==> Pow2(m) / 2 == 0
  {
  }

  lemma CarryLsb(s: seq<bool>, m: nat)
    requires m < |s|
    ensures Lsb(Carry(s, m)) == Lsb(s[..m]) + Pow2(m)
  {
    var t := s[..m] + [true];
    assert Carry(s, m) == t + Zeros(|s| - m - 1);
    LsbPadded(t, |s| - m - 1);
    LsbConcat(s[..m], [true]);
    assert Lsb([true]) == 1 by { assert [true][1..] == []; }
  }

  // ---- Filling a table: lines 278-281 -------------------------------------

  lemma SameResidue(t: nat, j: nat, step: nat)
    requires step > 0 && t % step == j % step && j <= t < j + step
    ensures t == j
  {
    var q, q' := t / step, j / step;
    assert t == step * q + t % step && j == step * q' + j % step;
    if q' < q {
      MulStep(step, q', q);
    }
  }

  lemma NextResidue(j: nat, step: nat)
    requires step > 0
    ensures (j + step) % step == j % step
  {
    assert j == step * (j / step) + j % step;
    assert j + step == step * (j / step + 1) + j % step;
    DivModUnique(j + step, step, j / step + 1, j % step);
  }

  /** Between two filled slots no other slot has the same low bits. */
  ghost predicate OnlyAt(j: nat, step: nat, low: nat)
    requires step > 0
  {
    forall t: nat :: j <= t < j + step && Congruent(t, step, low) ==> t == j
  }

  lemma FillStep(j: nat, step: nat, low: nat)
    requires step > 0 && Congruent(j, step, low)
    ensures OnlyAt(j, step, low) && Congruent(j + step, step, low)
  {
    forall t: nat | j <= t < j + step && Congruent(t, step, low)
      ensures t == j
    {
      SameResidue(t, j, step);
    }
    NextResidue(j, step);
  }

  lemma SmallResidue(low: nat, step: nat)
    requires low < step
    ensures Congruent(low, step, low)
    ensures forall t: nat :: t < low ==> !Congruent(t, step, low)
  {
    forall t: nat | t < low
      ensures !Congruent(t, step, low)
    {
      DivModUnique(t, step, 0, t);
    }
    DivModUnique(low, step, 0, low);
  }

  method FillTable(q: array<Huft>, low: nat, step: nat, z: nat, r: Huft) returns (ghost hits: multiset<nat>)
    requires low < step && z == q.Length
    modifies q
    ensures FilledWith(old(q[..]), q[..], step, low, r)
    ensures HitOnce(multiset{}, hits, z, step, low)
  {
    hide Congruent;
    var j := low;
    hits := multiset{};
    SmallResidue(low, step);
    while j < z
      invariant Congruent(j, step, low)
      invariant forall t :: 0 <= t < z ==> q[t] == if t < j && Congruent(t, step, low) then r else old(q[t])
      invariant forall t: nat :: hits[t] == if t < z && t < j && Congruent(t, step, low) then 1 else 0
    {
      q[j], hits := r, hits + multiset{j};
      FillStep(j, step, low);
      j := j + step;
    }
  }

  // ---- The state between two steps of the main loop ------------------------

  /** The C stacks u[] and x[] hold the tables on the path and the bits that lead to them. */
  ghost predicate Stacks(tabs: seq<array<Huft>>, N: seq<Node>, st: seq<nat>, xs: seq<nat>, us: seq<array?<Huft>>)
  {
    && |st| <= |us| && |st| <= |xs| && |tabs| == |N|
    && forall h :: 0 <= h < |st| ==>
         && st[h] < |N| && us[h] == tabs[st[h]] && xs[h] == Lsb(N[st[h]].p)
  }

  ghost predicate Standing(P: Plan, F: Forest, st: seq<nat>, xs: seq<nat>, us: seq<array?<Huft>>,
                           h: int, w: int)
  {
    && |P.c| >= 1
    && Shape(P, F) && Chain(P, F.node, st) && Stacks(F.tabs, F.node, st, xs, us)
    && h == |st| - 1 && w == |Top(F.node, st).p|
    && st[0] == 0 && F.node[0] == Node([], P.l) && |F.mem[0]| == RootSize(P)
  }

  /**
   * The size of the first table.  When the shortest code already has `l` bits
   * and longer ones follow, the size search at line 229 steps past `l`.
   */
  ghost function RootSize(P: Plan): nat
    requires |P.c| >= 1
  {
    if LeastLength(P.c, 1) == P.l < P.g then Pow2(P.l + 1) else Pow2(P.l)
  }

  /** All words before `s` are in the tables, and the stack leads towards `s`. */
  ghost predicate Ready(P: Plan, F: Forest, st: seq<nat>, xs: seq<nat>, us: seq<array?<Huft>>,
                        h: int, w: int, s: seq<bool>)
  {
    && Standing(P, F, st, xs, us, h, w)
    && OnPath(P, F.node, st, s)
    && Sane(P, F, st, Pos(s, P.g))
  }

  /** Before the first table: lines 199-203. */
  ghost predicate Unstarted(P: Plan, F: Forest, st: seq<nat>, h: int, w: int, s: seq<bool>)
  {
    && F == NO_FOREST && st == [] && h == -1 && w + P.l == 0
    && 1 <= |s| <= P.l <= P.g && Pos(s, P.g) == 0 && Lsb(s) == 0
    && |P.c| >= 1 && |s| == LeastLength(P.c, 1)
  }

  // ---- Making tables: lines 216-259 ---------------------------------------

  ghost function RootForest(P: Plan, tab: array<Huft>, size: nat): Forest
  {
    Forest([tab], [Node([], P.l)], [seq(size, _ => Undef)], [multiset{}])
  }

  lemma RootReady(P: Plan, s: seq<bool>, r: nat, tab: array<Huft>, size: nat)
    requires ValidPlan(P) && Word(P, s, r) && |s| <= P.l && Pos(s, P.g) == 0 && Pow2(P.l) <= size
    ensures var F := RootForest(P, tab, size);
      Shape(P, F) && Chain(P, F.node, [0]) && OnPath(P, F.node, [0], s) && Sane(P, F, [0], 0)
  {
    hide Pow2, Pos, First, Offset, Full;
    var F := RootForest(P, tab, size);
    assert NodeOK(P, F.node[0], |F.mem[0]|);
    assert Covered(P, F.node, [0], 0);
    assert Kept(P, F, 0);
    assert Needed(P, F.node[0]);
  }

  /** The root gets `l` index bits, or one more when the shortest code is already `l` bits long. */
  lemma RootBits(P: Plan, k: nat, j: nat)
    requires ValidPlan(P) && P.c[P.g] > 0 && 1 <= k <= P.l && k <= j
    requires j <= P.l ==> j == P.l || UsedUp(P.c, 0, 0, j)
    ensures j >= P.l
  {
    if j < P.l {
      var q := First(P.c, j) + P.c[j];
      assert 1 * Pow2(j) == Pow2(j);
      EndBeforeStart(P.c, j, P.g, P.g);
      Pow2Add(j, P.g - j);
      MulLe(Pow2(j), q, Pow2(P.g - j));
    }
  }

  /** An aligned word's prefix number. */
  lemma PrefixNumber(P: Plan, s: seq<bool>, w: nat)
    requires w <= |s| <= P.g && Pos(s[..w], P.g) == Pos(s, P.g)
    ensures Msb(s) == Msb(s[..w]) * Pow2(|s| - w)
  {
    AlignedPos(P, s, w);
    PosScale(s[..w], |s|);
  }

  lemma AlignedPos(P: Plan, s: seq<bool>, w: nat)
    requires w <= |s| <= P.g && Pos(s[..w], P.g) == Pos(s, P.g)
    ensures Pos(s[..w], |s|) == Pos(s, |s|)
  {
    assert s == s[..w] + s[w..];
    PosConcat(s[..w], s[w..], P.g);
    PosConcat(s[..w], s[w..], |s|);
    PosZeroIsZeros(s[w..], P.g - w);
    PosZeros(|s| - w, |s| - w);
  }

  /** A place where the source picks an index wider than the `l` bits a link can fill. */
  ghost predicate TooWide(c: seq<nat>, g: nat, l: nat, k: nat, r: nat, w: nat, M: nat)
  {
    && 1 <= l <= w && w % l == 0 && w + l <= k <= g < |c| && r < c[k]
    && First(c, k) + r == M * Pow2(k - w)
    && !UsedUp(c, M, w, l)
  }

  /**
   * No prefix whose length is a positive multiple of `l` has only codes of
   * w + l bits or more, some of them longer.
   */
  ghost predicate Balanced(c: seq<nat>, g: nat, l: nat)
  {
    forall k, r, w, M :: !TooWide(c, g, l, k, r, w, M)
  }

  /** A new table on the path keeps everything in order. */
  lemma PushReady(P: Plan, F: Forest, st: seq<nat>, xs: seq<nat>, us: seq<array?<Huft>>, h: int, w: int,
                  s: seq<bool>, r: nat, m: Node, tab: array<Huft>, F': Forest, xs': seq<nat>, us': seq<array?<Huft>>)
    requires Ready(P, F, st, xs, us, h, w, s) && Pushes(P, F, st, s, r, m, tab, F') && WidthOK(P, m)
    requires |st| < |xs| && |st| < |us| && Lsb(m.p) == Lsb(s)
    requires xs' == xs[h + 1 := Lsb(s)] && us' == us[h + 1 := tab]
    ensures Ready(P, F', st + [|F.node|], xs', us', h + 1, w + P.l, s)
  {
    hide Pos, Lsb, Pow2, First, Offset, RootSize, Stacks, ValidPlan, NodeOK, Covered, Settled, Pushes, WidthOK, OnPath;
    PushStanding(P, F, st, xs, us, h, w, s, r, m, tab, F', xs', us');
    PushSettled(P, F, st, s, r, m, tab, F');
  }

  lemma PushStanding(P: Plan, F: Forest, st: seq<nat>, xs: seq<nat>, us: seq<array?<Huft>>, h: int, w: int,
                     s: seq<bool>, r: nat, m: Node, tab: array<Huft>, F': Forest, xs': seq<nat>, us': seq<array?<Huft>>)
    requires Standing(P, F, st, xs, us, h, w) && Pushes(P, F, st, s, r, m, tab, F')
    requires |st| < |xs| && |st| < |us| && Lsb(m.p) == Lsb(s)
    requires xs' == xs[h + 1 := Lsb(s)] && us' == us[h + 1 := tab]
    ensures Standing(P, F', st + [|F.node|], xs', us', h + 1, w + P.l)
    ensures OnPath(P, F'.node, st + [|F.node|], s)
  {
    hide Pos, Lsb, Pow2, First, Offset, RootSize, NodeOK, Pushes, Pushed, ValidPlan, OnPath;
    PushesParts(P, F, st, s, r, m, tab, F');
    PushedParts(P, F, st, s, r, m, tab, F');
    PushCore(P, F, st, s, r, m, tab, F');
    PushStacks(F, st, xs, us, F', xs', us', Lsb(s), tab);
  }

  lemma PushStacks(F: Forest, st: seq<nat>, xs: seq<nat>, us: seq<array?<Huft>>,
                   F': Forest, xs': seq<nat>, us': seq<array?<Huft>>, i: nat, tab: array<Huft>)
    requires Stacks(F.tabs, F.node, st, xs, us) && |st| < |xs| && |st| < |us|
    requires F'.tabs == F.tabs + [tab] && |F'.node| == |F.node| + 1 && F.node <= F'.node
    requires i == Lsb(F'.node[|F.node|].p)
    requires xs' == xs[|st| := i] && us' == us[|st| := tab]
    ensures Stacks(F'.tabs, F'.node, st + [|F.node|], xs', us')
  {
  }

  /** One bit too many exactly when the shortest code has `l` bits and longer ones follow. */
  lemma RootWidth(P: Plan, k: nat, r: nat, j: nat)
    requires ValidPlan(P) && P.c[P.g] > 0 && 1 <= k <= P.l && k <= j && r < P.c[k]
    requires First(P.c, k) + r == 0 * Pow2(k)
    requires j <= P.l ==> j == P.l || UsedUp(P.c, 0, 0, j)
    requires j > P.l <==> k >= P.l && !UsedUp(P.c, 0, 0, P.l)
    ensures j > P.l <==> k == P.l && P.l < P.g
  {
    if k == P.l && P.l < P.g {
      FullLater(P, k);
    } else if k == P.l {
      assert 1 * Pow2(P.l) == Pow2(P.l);
    }
  }

  /** A length before the last never fills the code space. */
  lemma FullLater(P: Plan, k: nat)
    requires ValidPlan(P) && P.c[P.g] > 0 && 1 <= k < P.g
    ensures !UsedUp(P.c, 0, 0, k)
  {
    var q := First(P.c, k) + P.c[k];
    EndBeforeStart(P.c, k, P.g, P.g);
    Pow2Add(k, P.g - k);
    assert 1 * Pow2(k) == Pow2(k);
    if Pow2(k) <= q {
      MulLe(Pow2(k), q, Pow2(P.g - k));
    }
  }

  /** The place of a link, by shifting the code: line 255. */
  lemma LinkShift(s: seq<bool>, w: nat, w1: nat)
    requires w <= w1 <= |s| && Lsb(s[..w1]) == Lsb(s)
    ensures Shr(Lsb(s), w) == Lsb(s[w..w1])
    ensures s[..w1][w..] == s[w..w1]
  {
    ShrCut(s[..w1], w);
  }

  lemma SubTableFits(P: Plan, F: Forest, st: seq<nat>, s: seq<bool>, r: nat, j: nat, h: int, w: int)
    requires ValidPlan(P) && Chain(P, F.node, st) && Word(P, s, r)
    requires h == |st| - 1 && w == |Top(F.node, st).p| && w + P.l < |s|
    requires Msb(s) == Msb(s[..w + P.l]) * Pow2(|s| - w - P.l)
    requires |s| - w - P.l <= j && w + P.l + j <= P.g + 1
    requires j <= P.l ==> w + P.l + j <= P.g && (j == P.l || UsedUp(P.c, Msb(s[..w + P.l]), w + P.l, j))
    requires j > P.l <==> |s| >= w + 2 * P.l && !UsedUp(P.c, Msb(s[..w + P.l]), w + P.l, P.l)
    ensures NodeOK(P, Node(s[..w + P.l], j), Pow2(j)) && WidthOK(P, Node(s[..w + P.l], j))
    ensures Thin(P, Node(s[..w + P.l], j)) <==> NoneWide(P.c, P.g, P.l, |s|, r, w + P.l)
  {
    hide Pow2, First, Pos, Offset;
    var w1 := w + P.l;
    var M := Msb(s[..w1]);
    if j < P.l {
      UsedUpIsClosed(P, s[..w1], j);
    }
    if j > P.l {
      ChainMultiple(P, F.node, st, h);
      NextResidue(w, P.l);
      assert TooWide(P.c, P.g, P.l, |s|, r, w1, M);
      UsedUpIsClosed(P, s[..w1], P.l);
    } else {
      OnlyNumber(P.c, P.g, P.l, |s|, r, w1, M);
    }
  }

  /** No over-wide index for word (k, r) at prefixes of w bits. */
  ghost predicate NoneWide(c: seq<nat>, g: nat, l: nat, k: nat, r: nat, w: int)
  {
    forall M {:trigger TooWide(c, g, l, k, r, w, M)} :: w >= 0 ==> !TooWide(c, g, l, k, r, w, M)
  }

  lemma OnlyNumber(c: seq<nat>, g: nat, l: nat, k: nat, r: nat, w: nat, M: nat)
    requires w <= k < |c| && First(c, k) + r == M * Pow2(k - w) && (k < w + l || UsedUp(c, M, w, l))
    ensures NoneWide(c, g, l, k, r, w)
  {
    hide First, Pow2, UsedUp;
    forall M': nat
      ensures !TooWide(c, g, l, k, r, w, M')
    {
      if TooWide(c, g, l, k, r, w, M') {
        assert M' * Pow2(k - w) == M * Pow2(k - w) + 0;
        SameMultiple(M', M, 0, Pow2(k - w));
      }
    }
  }

  /** The first table, for words of the shortest length; no table leads to it. */
  method RootTable(ghost P: Plan, c: seq<nat>, k: nat, a: nat, g: nat, l: nat,
                   x: array<nat>, u: array<array?<Huft>>, ghost s: seq<bool>)
    returns (z: nat, q: array<Huft>, ghost F: Forest)
    requires ValidPlan(P) && P.c == c && P.g == g && P.l == l && c[g] > 0
    requires k == |s| <= l && a < c[k] && Word(P, s, c[k] - a - 1) && Pos(s, g) == 0
    requires k == LeastLength(c, 1)
    requires x.Length == BMAX + 1 && u.Length == BMAX && x[0] == 0
    modifies u
    ensures Synced(F) && fresh(q) && F.tabs == [q] && fresh(Tables(F)) && u[0] == q && z == q.Length
    ensures Ready(P, F, [0], x[..], u[..], 0, 0, s)
  {
    hide Pow2, First, Pos, Lsb, Offset;
    RootWord(P, s, c[k] - a - 1);
    var j := TableBits(c, k, 0, a, g, l, 0);
    RootBits(P, k, j);
    RootWidth(P, k, c[k] - a - 1, j);
    z := Pow2(j);
    q := new Huft[z](_ => Undef);
    u[0] := q;
    F := RootForest(P, q, z);
    Pow2Monotone(l, j);
    RootReady(P, s, c[k] - a - 1, q, z);
    EmptyIsZero();
    assert q[..] == F.mem[0];
  }

  lemma EmptyIsZero()
    ensures Lsb([]) == 0
  {
  }

  lemma RootWord(P: Plan, s: seq<bool>, r: nat)
    requires ValidPlan(P) && Word(P, s, r) && Pos(s, P.g) == 0
    ensures First(P.c, |s|) + r == 0 * Pow2(|s|)
  {
    hide Pos;
    PosScale(s, P.g);
    if Msb(s) > 0 {
      MulLe(1, Msb(s), Pow2(P.g - |s|));
    }
  }

  /** Lines 237-256: the new table, its place on the stacks, and the link to it. */
  method LinkTable(ghost P: Plan, i: nat, l: nat, j: nat, h: int, w: int, x: array<nat>, u: array<array?<Huft>>,
                   ghost F0: Forest, ghost st0: seq<nat>, ghost s: seq<bool>)
    returns (z: nat, q: array<Huft>, ghost F: Forest)
    requires P.l == l && x.Length == BMAX + 1 && u.Length == BMAX && Synced(F0)
    requires Standing(P, F0, st0, x[..], u[..], h, w) && Top(F0.node, st0).p <= s && i == Lsb(s)
    requires w + l < |s| && Lsb(s[..w + l]) == Lsb(s) && Lsb(s[w..w + l]) < |F0.mem[st0[h]]| && h + 1 < BMAX
    modifies x, u, u[h]
    ensures s[..w + l][w..] == s[w..w + l]
    ensures Synced(F) && F.tabs == F0.tabs + [q] && fresh(q) && fresh(Tables(F) - Tables(F0))
    ensures F == Pushed(P, F0, st0, Node(s[..w + l], j), q) && z == Pow2(j) == q.Length
    ensures x[..] == old(x[..])[h + 1 := i] && u[..] == old(u[..])[h + 1 := q]
  {
    hide Pow2, Lsb, RootSize, NodeOK;
    ghost var T0 := st0[h];
    z := Pow2(j);
    q := new Huft[z](_ => Undef);
    u[h + 1] := q;
    x[h + 1] := i;
    var jj := Shr(i, w);
    LinkShift(s, w, w + l);
    ghost var tab := F0.tabs[T0];
    assert u[h] == tab;
    u[h][jj] := LinkTo(j, l, q);
    F := Pushed(P, F0, st0, Node(s[..w + l], j), q);
    assert Synced(F) by {
      assert tab[..] == F0.mem[T0][jj := LinkTo(j, l, q)];
      assert q[..] == seq(z, _ => Undef);
    }
  }

  /** The method that links a new table below the one on top of the stack. */
  method SubTable(ghost P: Plan, c: seq<nat>, k: nat, a: nat, i: nat, g: nat, l: nat,
                  h: int, w: int, x: array<nat>, u: array<array?<Huft>>,
                  ghost F0: Forest, ghost st0: seq<nat>, ghost s: seq<bool>)
    returns (z: nat, q: array<Huft>, ghost F: Forest, ghost st: seq<nat>)
    requires ValidPlan(P) && P.c == c && P.g == g && P.l == l
    requires k == |s| && k < |c| && a < c[k] && Word(P, s, c[k] - a - 1) && i == Lsb(s)
    requires x.Length == BMAX + 1 && u.Length == BMAX && Synced(F0)
    requires Ready(P, F0, st0, x[..], u[..], h, w, s) && k > w + l
    modifies x, u, u[h]
    ensures Synced(F) && F.tabs == F0.tabs + [q] && fresh(q) && fresh(Tables(F) - Tables(F0))
    ensures Ready(P, F, st, x[..], u[..], h + 1, w + l, s)
    ensures q == u[h + 1] && z == q.Length
    ensures Grown(P, F0.node, F.node, s, w + l)
    ensures Narrow(P, F.node) <==> Narrow(P, F0.node) && NoneWide(c, g, l, k, c[k] - a - 1, w + l)
  {
    hide Pow2, First, Pos, Lsb, Offset, NoneWide, Sane, Roomy, WidthOK, Thin;
    var w1 := w + l;
    ghost var p, T0, r := s[..w1], st0[h], c[k] - a - 1;
    PrefixNumber(P, s, w1);
    var j := TableBits(c, k, w1, a, g, l, Msb(p));
    LinkIndex(P, F0.node[T0], |F0.mem[T0]|, s, r);
    SubTableFits(P, F0, st0, s, r, j, h, w);
    ChainPrefix(P, F0.node, st0, 0, h);
    hide Word, NodeOK, ValidPlan, Shape, Chain, Stacks, Pushed, OnPath;
    z, q, F := LinkTable(P, i, l, j, h, w, x, u, F0, st0, s);
    st := st0 + [|F0.node|];
    PushReady(P, F0, st0, old(x[..]), old(u[..]), h, w, s, r, Node(p, j), q, F, x[..], u[..]);
    NarrowMore(P, F0.node, Node(p, j));
  }

  lemma NarrowMore(P: Plan, N: seq<Node>, m: Node)
    ensures Narrow(P, N + [m]) <==> Narrow(P, N) && Thin(P, m)
  {
    hide Thin;
    if Narrow(P, N + [m]) {
      assert Thin(P, (N + [m])[|N|]);
      forall T | 0 <= T < |N|
        ensures Thin(P, N[T])
      {
        assert (N + [m])[T] == N[T];
      }
    }
  }

  /** Every table but the root was made for a word before `pos`. */
  ghost predicate Begun(P: Plan, N: seq<Node>, pos: nat)
  {
    forall T :: 0 < T < |N| ==> |N[T].p| <= P.g && Pos(N[T].p, P.g) < pos
  }

  lemma BegunPush(P: Plan, N: seq<Node>, s: seq<bool>, w: nat, nb: nat)
    requires w <= |s| <= P.g && Pos(s[..w], P.g) == Pos(s, P.g) && Begun(P, N, Pos(s, P.g) + 1)
    ensures Begun(P, N + [Node(s[..w], nb)], Pos(s, P.g) + 1)
  {
    hide Pos;
  }

  lemma BegunLater(P: Plan, N: seq<Node>, pos: nat, pos': nat)
    requires Begun(P, N, pos) && pos <= pos'
    ensures Begun(P, N, pos')
  {
    hide Pos;
  }

  /** A word whose number is a multiple starts where its prefix starts. */
  lemma AlignedPrefix(P: Plan, s: seq<bool>, w: nat, M: nat)
    requires w <= |s| <= P.g && Msb(s) == M * Pow2(|s| - w)
    ensures Pos(s[..w], P.g) == Pos(s, P.g)
  {
    var u, t := Pow2(|s| - w), s[w..];
    assert s == s[..w] + t;
    PosConcat(s[..w], t, |s|);
    PosScale(s[..w], |s|);
    PosScale(s, |s|);
    PosBound(t, |s| - w);
    assert Pow2(0) == 1;
    hide Pow2, Msb, Pos;
    SameMultiple(M, Msb(s[..w]), Pos(t, |s| - w), u);
    PosZeroIsZeros(t, |s| - w);
    PosConcat(s[..w], t, P.g);
    PosZeros(|t|, P.g - w);
  }

  lemma SameMultiple(a: nat, b: nat, r: nat, u: nat)
    requires a * u == b * u + r && r < u
    ensures a == b && r == 0
  {
    assert u * a == a * u && u * b == b * u;
    if a < b {
      MulStep(u, a, b);
    } else if b < a {
      MulStep(u, b, a);
    }
  }

  /** Prefixes of tables have a whole number of levels. */
  ghost predicate Level(w: int, l: nat)
  {
    l >= 1 && w >= 0 && w % l == 0
  }

  /** One table more, at a prefix where the word starts. */
  ghost predicate Grown(P: Plan, N: seq<Node>, N': seq<Node>, s: seq<bool>, w: int)
  {
    && 0 <= w <= |s| <= P.g && Pos(s[..w], P.g) == Pos(s, P.g)
    && |N'| > |N| && N' == N + [Node(s[..w], N'[|N|].nb)]
  }

  /** What one level further down says about the tables and the words so far. */
  lemma OneDeeper(P: Plan, N: seq<Node>, N': seq<Node>, s: seq<bool>, r: nat, w: int)
    requires P.l >= 1 && Level(w, P.l) && 0 <= w && w + P.l < |s| <= P.g
    requires Grown(P, N, N', s, w + P.l)
    requires Begun(P, N, Pos(s, P.g) + 1)
    ensures Begun(P, N', Pos(s, P.g) + 1)
    ensures NarrowTo(P.c, P.g, P.l, |s|, r, w + P.l) <==>
      NarrowTo(P.c, P.g, P.l, |s|, r, w) && NoneWide(P.c, P.g, P.l, |s|, r, w + P.l)
  {
    hide Pos, Begun, NarrowTo, NoneWide;
    BegunPush(P, N, s, w + P.l, N'[|N|].nb);
    NarrowStep(P.c, P.g, P.l, |s|, r, w);
  }

  /** Before the first table, or with the stack leading towards `s` and q the table on top if it is deep enough. */
  ghost predicate Poised(P: Plan, F: Forest, st: seq<nat>, xs: seq<nat>, us: seq<array?<Huft>>,
                         h: int, w: int, s: seq<bool>, q: array?<Huft>, z: nat)
  {
    || (Unstarted(P, F, st, h, w, s) && |xs| > 0 && xs[0] == 0)
    || (Ready(P, F, st, xs, us, h, w, s) &&
        (|s| <= w + P.l ==> 0 <= h < |us| && q == us[h] && q != null && z == q.Length))
  }

  /** One turn of the loop of line 216. */
  method StepDown(ghost P: Plan, c: seq<nat>, k: nat, a: nat, i: nat, g: nat, l: nat,
                  h0: int, w0: int, ghost z0: nat, ghost q0: array?<Huft>, x: array<nat>, u: array<array?<Huft>>,
                  ghost F0: Forest, ghost st0: seq<nat>, ghost s: seq<bool>)
    returns (h: int, w: int, z: nat, q: array<Huft>, ghost F: Forest, ghost st: seq<nat>)
    requires ValidPlan(P) && P.c == c && P.g == g && P.l == l && c[g] > 0
    requires k == |s| && k < |c| && a < c[k] && Word(P, s, c[k] - a - 1) && i == Lsb(s)
    requires x.Length == BMAX + 1 && u.Length == BMAX && Synced(F0)
    requires Poised(P, F0, st0, x[..], u[..], h0, w0, s, q0, z0) && k > w0 + l
    requires Begun(P, F0.node, Pos(s, g) + 1)
    modifies x, u, Tables(F0)
    ensures Synced(F) && fresh(Tables(F) - Tables(F0))
    ensures w == w0 + l && Ready(P, F, st, x[..], u[..], h, w, s)
    ensures 0 <= h < BMAX && q == u[h] && z == q.Length && Begun(P, F.node, Pos(s, g) + 1)
    ensures Narrow(P, F.node) <==> Narrow(P, F0.node) && NoneWide(c, g, l, k, c[k] - a - 1, w)
    ensures NarrowTo(c, g, l, k, c[k] - a - 1, w) <==>
      NarrowTo(c, g, l, k, c[k] - a - 1, w0) && NoneWide(c, g, l, k, c[k] - a - 1, w)
  {
    hide *;
    PlanBounds(P);
    WordBounds(P, s, c[k] - a - 1);
    ghost var r := c[k] - a - 1;
    WhichState(P, F0, st0, x[..], u[..], h0, w0, s, q0, z0);
    w := w0 + l;
    if h0 < 0 {
      z, q, F := RootTable(P, c, k, a, g, l, x, u, s);
      h, st := 0, [0];
      NarrowRoot(P, F, st, x[..], u[..], h, w, s, r, w0);
    } else {
      TopTable(P, F0, st0, x[..], u[..], h0, w0, s);
      z, q, F, st := SubTable(P, c, k, a, i, g, l, h0, w0, x, u, F0, st0, s);
      OneDeeper(P, F0.node, F.node, s, r, w0);
      h := h0 + 1;
      WhichReady(P, F, st, x[..], u[..], h, w, s);
    }
  }

  lemma PlanBounds(P: Plan)
    requires ValidPlan(P)
    ensures 1 <= P.l <= P.g < |P.c| == BMAX + 1
  {
  }

  lemma WordBounds(P: Plan, s: seq<bool>, r: nat)
    requires Word(P, s, r)
    ensures 1 <= |s| <= P.g
  {
  }

  lemma WhichReady(P: Plan, F: Forest, st: seq<nat>, xs: seq<nat>, us: seq<array?<Huft>>,
                   h: int, w: int, s: seq<bool>)
    requires Ready(P, F, st, xs, us, h, w, s)
    ensures 0 <= h < |us|
  {
  }

  method Descend(ghost P: Plan, c: seq<nat>, k: nat, a: nat, i: nat, g: nat, l: nat,
                 h0: int, w0: int, z0: nat, q0: array?<Huft>, x: array<nat>, u: array<array?<Huft>>,
                 ghost F0: Forest, ghost st0: seq<nat>, ghost s: seq<bool>)
    returns (h: int, w: int, z: nat, q: array?<Huft>, ghost F: Forest, ghost st: seq<nat>)
    requires ValidPlan(P) && P.c == c && P.g == g && P.l == l && c[g] > 0
    requires k == |s| && k < |c| && a < c[k] && Word(P, s, c[k] - a - 1) && i == Lsb(s)
    requires x.Length == BMAX + 1 && u.Length == BMAX && Synced(F0)
    requires Poised(P, F0, st0, x[..], u[..], h0, w0, s, q0, z0)
    requires Begun(P, F0.node, Pos(s, g))
    modifies x, u, Tables(F0)
    ensures Synced(F) && fresh(Tables(F) - Tables(F0))
    ensures Ready(P, F, st, x[..], u[..], h, w, s) && Begun(P, F.node, Pos(s, g) + 1)
    ensures k <= w + l && 0 <= h < BMAX && q != null && q == u[h] && z == q.Length
    ensures Narrow(P, F.node) <==> Narrow(P, F0.node) && NarrowWord(c, g, l, k, c[k] - a - 1)
  {
    hide *;
    PlanBounds(P);
    WordBounds(P, s, c[k] - a - 1);
    h, w, z, q := h0, w0, z0, q0;
    F, st := F0, st0;
    ghost var r := c[k] - a - 1;
    NarrowStart(P, F0, st0, x[..], u[..], h0, w0, s, r, q0, z0);
    BegunLater(P, F0.node, Pos(s, g), Pos(s, g) + 1);
    while k > w + l
      invariant Synced(F) && fresh(Tables(F) - Tables(F0))
      invariant Poised(P, F, st, x[..], u[..], h, w, s, q, z)
      invariant Begun(P, F.node, Pos(s, g) + 1)
      invariant Narrow(P, F.node) <==> Narrow(P, F0.node) && NarrowTo(c, g, l, k, r, w)
      decreases k - w
    {
      h, w, z, q, F, st := StepDown(P, c, k, a, i, g, l, h, w, z, q, x, u, F, st, s);
      PoisedAgain(P, F, st, x[..], u[..], h, w, s, q, z);
    }
    WhichState(P, F, st, x[..], u[..], h, w, s, q, z);
    NarrowEnd(c, g, l, k, r, w);
  }

  lemma PoisedAgain(P: Plan, F: Forest, st: seq<nat>, xs: seq<nat>, us: seq<array?<Huft>>,
                    h: int, w: int, s: seq<bool>, q: array?<Huft>, z: nat)
    requires Ready(P, F, st, xs, us, h, w, s) && 0 <= h < |us| && q == us[h] && q != null && z == q.Length
    ensures Poised(P, F, st, xs, us, h, w, s, q, z)
  {
  }

  /** The table stack is empty exactly before the first table. */
  lemma WhichState(P: Plan, F: Forest, st: seq<nat>, xs: seq<nat>, us: seq<array?<Huft>>,
                   h: int, w: int, s: seq<bool>, q: array?<Huft>, z: nat)
    requires P.l >= 1 && |s| >= 1 && Poised(P, F, st, xs, us, h, w, s, q, z)
    ensures h < 0 ==>
        F == NO_FOREST && |s| <= P.l <= P.g && Pos(s, P.g) == 0 && |P.c| >= 1 && |s| == LeastLength(P.c, 1)
                      && w + P.l == 0 && |xs| > 0 && xs[0] == 0
    ensures h >= 0 ==> Ready(P, F, st, xs, us, h, w, s) && h < |us| && w >= 0 && Level(w, P.l)
    ensures h >= 0 && |s| <= w + P.l ==> q == us[h] && q != null && z == q.Length
    ensures h < 0 ==> |s| > w + P.l
  {
    hide Pos, Lsb, Sane, NodeOK, RootSize;
    if h >= 0 {
      ChainMultiple(P, F.node, st, |st| - 1);
    }
  }

  lemma TopTable(P: Plan, F: Forest, st: seq<nat>, xs: seq<nat>, us: seq<array?<Huft>>,
                 h: int, w: int, s: seq<bool>)
    requires Ready(P, F, st, xs, us, h, w, s)
    ensures 0 <= h < |us| && us[h] != null && us[h] in Tables(F)
  {
    hide Pos, Lsb, Sane, NodeOK, RootSize, OnPath;
    assert us[h] == F.tabs[st[h]];
  }

  /** Word (k, r) meets no over-wide index at prefixes of up to w bits. */
  ghost predicate NarrowTo(c: seq<nat>, g: nat, l: nat, k: nat, r: nat, w: int)
  {
    forall w': nat, M: nat :: w' <= w ==> !TooWide(c, g, l, k, r, w', M)
  }

  ghost predicate NarrowWord(c: seq<nat>, g: nat, l: nat, k: nat, r: nat)
  {
    forall w: nat, M: nat :: !TooWide(c, g, l, k, r, w, M)
  }

  /** The tables there already were made for earlier words, so none of them is at an aligned prefix of this one. */
  lemma NarrowStart(P: Plan, F: Forest, st: seq<nat>, xs: seq<nat>, us: seq<array?<Huft>>,
                    h: int, w: int, s: seq<bool>, r: nat, q: array?<Huft>, z: nat)
    requires ValidPlan(P) && Word(P, s, r) && Begun(P, F.node, Pos(s, P.g))
    requires Poised(P, F, st, xs, us, h, w, s, q, z)
    ensures NarrowTo(P.c, P.g, P.l, |s|, r, w)
  {
    hide Pos, Pow2, First, Lsb, UsedUp, Sane, NodeOK, Offset, Full;
    forall w': nat, M: nat | w' <= w
      ensures !TooWide(P.c, P.g, P.l, |s|, r, w', M)
    {
      if TooWide(P.c, P.g, P.l, |s|, r, w', M) && h >= 0 {
        AlignedPrefix(P, s, w', M);
        StackAt(P, F.node, st, s, w');
      }
    }
  }

  /** The stacked table at a prefix of the word is not one of the tables begun before it. */
  lemma StackAt(P: Plan, N: seq<Node>, st: seq<nat>, s: seq<bool>, w: nat)
    requires Chain(P, N, st) && st[0] == 0 && |N[0].p| == 0 && P.l >= 1 && Top(N, st).p <= s && |s| <= P.g
    requires 1 <= w <= |Top(N, st).p| && w % P.l == 0 && Pos(s[..w], P.g) == Pos(s, P.g)
    ensures !Begun(P, N, Pos(s, P.g))
  {
    hide Pos;
    var h := w / P.l;
    ChainMultiple(P, N, st, |st| - 1);
    assert w == h * P.l;
    assert |st| * P.l == (|st| - 1) * P.l + P.l;
    if h >= |st| {
      MulLe(|st|, h, P.l);
    }
    ChainMultiple(P, N, st, h);
    ChainPrefix(P, N, st, h, |st| - 1);
    assert N[st[h]].p == s[..w];
  }

  lemma NarrowRoot(P: Plan, F: Forest, st: seq<nat>, xs: seq<nat>, us: seq<array?<Huft>>,
                   h: int, w: int, s: seq<bool>, r: nat, w0: int)
    requires P.l >= 1 && |F.tabs| == 1 && |s| <= P.g && Ready(P, F, st, xs, us, h, w, s) && w0 < 0
    ensures NarrowTo(P.c, P.g, P.l, |s|, r, w0) && NarrowTo(P.c, P.g, P.l, |s|, r, 0)
    ensures NoneWide(P.c, P.g, P.l, |s|, r, 0)
    ensures Begun(P, F.node, Pos(s, P.g) + 1)
    ensures Narrow(P, F.node) && Narrow(P, NO_FOREST.node)
  {
    hide Pos, Lsb, Covered, NodeOK, RootSize, OnPath, UsedUp, Kept, Rooted, Distinct, Housed, Needed, Roomy;
    assert Thin(P, F.node[0]) by { RootThin(P, F.node[0]); }
  }

  lemma RootThin(P: Plan, n: Node)
    requires n == Node([], P.l) && WidthOK(P, n)
    ensures Thin(P, n)
  {
  }

  lemma NarrowStep(c: seq<nat>, g: nat, l: nat, k: nat, r: nat, w: int)
    requires l >= 1 && w >= 0 && w % l == 0
    ensures NarrowTo(c, g, l, k, r, w + l) <==> NarrowTo(c, g, l, k, r, w) && NoneWide(c, g, l, k, r, w + l)
  {
    if NarrowTo(c, g, l, k, r, w) && NoneWide(c, g, l, k, r, w + l) {
      NarrowBoth(c, g, l, k, r, w);
    }
  }

  lemma NarrowBoth(c: seq<nat>, g: nat, l: nat, k: nat, r: nat, w: int)
    requires l >= 1 && w >= 0 && w % l == 0 && NarrowTo(c, g, l, k, r, w) && NoneWide(c, g, l, k, r, w + l)
    ensures NarrowTo(c, g, l, k, r, w + l)
  {
    forall w': nat, M: nat | w' <= w + l
      ensures !TooWide(c, g, l, k, r, w', M)
    {
      if w < w' < w + l {
        NoMultiple(w, w', l);
      }
    }
  }

  lemma NoMultiple(w: nat, w': nat, l: nat)
    requires l >= 1 && w % l == 0 && w < w' < w + l
    ensures w' % l != 0
  {
    if w' % l == 0 {
      SameResidue(w', w, l);
    }
  }

  lemma NarrowEnd(c: seq<nat>, g: nat, l: nat, k: nat, r: nat, w: int)
    requires k <= w + l
    ensures NarrowTo(c, g, l, k, r, w) <==> NarrowWord(c, g, l, k, r)
  {
  }

  // ---- Backing up over finished tables: lines 288-293 ----------------------

  /** The words up to `s` are in the tables; `s'` comes next, unless `s` was the last. */
  ghost predicate Backing(P: Plan, F: Forest, st: seq<nat>, xs: seq<nat>, us: seq<array?<Huft>>,
                          h: int, w: int, s: seq<bool>, s': seq<bool>, last: bool)
  {
    && Standing(P, F, st, xs, us, h, w)
    && 1 <= P.l && |s| <= P.g && Top(F.node, st).p <= s && w < |s|
    && EndPos(P, s) <= Pow2(P.g)
    && (last ==> EndPos(P, s) == Pow2(P.g))
    && (!last ==> |s'| == |s| && Pos(s', P.g) == EndPos(P, s))
    && (!last && w + P.l < |s| ==> Pos(s'[..w + P.l], P.g) == EndPos(P, s))
    && Sane(P, F, st, EndPos(P, s))
  }

  lemma PopFinished(P: Plan, n: Node, s: seq<bool>, s': seq<bool>, last: bool)
    requires n.p <= s && |n.p| < |s| <= P.g
    requires last ==> EndPos(P, s) == Pow2(P.g)
    requires !last ==> |s'| == |s| && Pos(s', P.g) == EndPos(P, s) && Lsb(s') % Pow2(|n.p|) != Lsb(n.p)
    ensures EndPos(P, n.p) <= EndPos(P, s)
    ensures !last ==> Pos(s'[..|n.p|], P.g) == EndPos(P, s)
  {
    PosBound(n.p, P.g);
    if !last {
      LsbCut(s', |n.p|);
      PopOne(P, n.p, s, s');
    }
  }

  lemma PopBacking(P: Plan, F: Forest, st: seq<nat>, xs: seq<nat>, us: seq<array?<Huft>>,
                   h: int, w: int, s: seq<bool>, s': seq<bool>, last: bool)
    requires Backing(P, F, st, xs, us, h, w, s, s', last) && h >= 1
    requires !last ==> Lsb(s') % Pow2(w) != Lsb(Top(F.node, st).p)
    ensures Backing(P, F, st[..h], xs, us, h - 1, w - P.l, s, s', last)
  {
    hide Pos, Lsb, Pow2, NodeOK, RootSize, Covered, Settled;
    PopFinished(P, Top(F.node, st), s, s', last);
    assert ChainAt(P, F.node, st, h - 1);
    ChainTake(P, F.node, st, h);
    PopCovered(P, F.node, st, EndPos(P, s));
  }

  lemma RootMatches(i: nat)
    ensures LowBits(i, 0) == Lsb([])
  {
  }

  lemma BackingParts(P: Plan, F: Forest, st: seq<nat>, xs: seq<nat>, us: seq<array?<Huft>>,
                     h: int, w: int, s: seq<bool>, s': seq<bool>, last: bool)
    requires Backing(P, F, st, xs, us, h, w, s, s', last)
    ensures h + 1 == |st| <= |xs| && 0 <= h && 0 <= w < |s| && st[h] < |F.node|
    ensures w == |Top(F.node, st).p| && xs[h] == Lsb(Top(F.node, st).p) && (h == 0 ==> Top(F.node, st).p == [])
    ensures !last ==> |s'| == |s|
  {
    hide Pos, Lsb, Sane, NodeOK, RootSize;
  }

  method BackUp(ghost P: Plan, i: nat, k: nat, l: nat, h0: int, w0: int, x: array<nat>,
                ghost us: seq<array?<Huft>>, ghost F: Forest, ghost st0: seq<nat>,
                ghost s: seq<bool>, ghost s': seq<bool>, ghost last: bool)
    returns (h: int, w: int, ghost st: seq<nat>)
    requires ValidPlan(P) && P.l == l && k == |s| && x.Length == BMAX + 1
    requires Backing(P, F, st0, x[..], us, h0, w0, s, s', last)
    requires i == if last then 0 else Lsb(s')
    ensures Backing(P, F, st, x[..], us, h, w, s, s', last)
    ensures !last ==> Top(F.node, st).p <= s'
    ensures (h == h0 && w == w0) || k > w + l
  {
    hide Pos, Lsb, Pow2, LowBits, Sane, NodeOK, RootSize, Stacks, EndPos, ValidPlan, Backing;
    h, w, st := h0, w0, st0;
    BackingParts(P, F, st, x[..], us, h, w, s, s', last);
    while LowBits(i, w) != x[h]
      invariant Backing(P, F, st, x[..], us, h, w, s, s', last)
      invariant (h == h0 && w == w0) || k > w + l
      invariant h + 1 == |st| <= x.Length && 0 <= h && 0 <= w < |s| && st[h] < |F.node|
      invariant w == |Top(F.node, st).p| && x[h] == Lsb(Top(F.node, st).p) && (h == 0 ==> Top(F.node, st).p == [])
      decreases h
    {
      if h == 0 {
        RootMatches(i);
      }
      LowBitsDef(i, w);
      PopBacking(P, F, st, x[..], us, h, w, s, s', last);
      st := st[..h];
      h := h - 1;
      w := w - l;
      BackingParts(P, F, st, x[..], us, h, w, s, s', last);
    }
    if !last {
      LowBitsDef(i, w);
      LsbCut(s', w);
      LsbInjective(s'[..w], Top(F.node, st).p);
    }
  }

  // ---- One code word: lines 212-294 ---------------------------------------

  /** The entry for the code word in place `p` of the value table, bits not yet set: lines 263-275. */
  function EntryFor(v: seq<Cell>, p: nat, n: nat, s0: nat, d: seq<nat>, e: seq<nat>): Huft
    requires n <= |v|
  {
    if p >= n then Huft(99, 0, 0, null)
    else
      match v[p]
      case Unset => Undef
      case Sym(sym) =>
        if sym < s0 then Huft(if sym < 256 then 16 else 15, 0, sym, null)
        else if sym - s0 < |d| && sym - s0 < |e| then Huft(e[sym - s0], 0, d[sym - s0], null)
        else Undef
  }

  /** Words before number `r` of length `k` are placed; `s` is that word, unless there is none. */
  ghost predicate AtNumber(P: Plan, F: Forest, st: seq<nat>, xs: seq<nat>, us: seq<array?<Huft>>,
                           h: int, w: int, k: nat, r: nat, s: seq<bool>, i: nat)
  {
    && 1 <= k <= P.g < |P.c|
    && First(P.c, k) + r <= Pow2(k)
    && (First(P.c, k) + r == Pow2(k) ==>
          i == 0 && Standing(P, F, st, xs, us, h, w) && Sane(P, F, st, Pow2(P.g)) && Begun(P, F.node, Pow2(P.g)))
    && (First(P.c, k) + r < Pow2(k) ==>
          |s| == k && Msb(s) == First(P.c, k) + r && i == Lsb(s) &&
          Ready(P, F, st, xs, us, h, w, s) && Begun(P, F.node, Pos(s, P.g)))
  }

  lemma AfterFill(P: Plan, F: Forest, st: seq<nat>, xs: seq<nat>, us: seq<array?<Huft>>,
                  h: int, w: int, s: seq<bool>, r: nat, F': Forest, s': seq<bool>)
    requires ValidPlan(P) && Ready(P, F, st, xs, us, h, w, s) && Word(P, s, r)
    requires |s| <= w + P.l && Offset(P.c, |s|) + r < |P.ent| && Filled(P, F, st, s, r, F')
    requires !AllOnes(s) ==> |s'| == |s| && Pos(s', P.g) == EndPos(P, s)
    ensures Backing(P, F', st, xs, us, h, w, s, s', AllOnes(s))
  {
    hide Pos, Lsb, Pow2, First, Offset, Settled, Covered, NodeOK, RootSize, Filled, Full, AllOnes, EndPos, Stacks,
        ValidPlan;
    EndBound(P, s);
    FillStanding(P, F, st, xs, us, h, w, s, r, F');
    FillSettled(P, F, st, s, r, F');
    PlanBounds(P);
    WordBounds(P, s, r);
  }

  lemma EndBound(P: Plan, s: seq<bool>)
    requires |s| <= P.g
    ensures EndPos(P, s) <= Pow2(P.g)
    ensures AllOnes(s) ==> EndPos(P, s) == Pow2(P.g)
  {
    PosBound(s, P.g);
    if AllOnes(s) {
      OnesPos(s, P.g);
    }
  }

  lemma FillStanding(P: Plan, F: Forest, st: seq<nat>, xs: seq<nat>, us: seq<array?<Huft>>,
                     h: int, w: int, s: seq<bool>, r: nat, F': Forest)
    requires ValidPlan(P) && Standing(P, F, st, xs, us, h, w) && OnPath(P, F.node, st, s) && Word(P, s, r)
    requires Offset(P.c, |s|) + r < |P.ent| && Filled(P, F, st, s, r, F')
    ensures Standing(P, F', st, xs, us, h, w) && F'.node == F.node
  {
    hide Pos, Lsb, Pow2, First, Offset, NodeOK, RootSize, FilledWith, HitOnce, Full;
    FillCore(P, F, st, s, r, F');
  }

  lemma AfterBackUp(P: Plan, F: Forest, st: seq<nat>, xs: seq<nat>, us: seq<array?<Huft>>,
                    h: int, w: int, s: seq<bool>, r: nat, s': seq<bool>, i: nat)
    requires ValidPlan(P) && Word(P, s, r)
    requires Backing(P, F, st, xs, us, h, w, s, s', AllOnes(s))
    requires |s| <= P.g && Begun(P, F.node, EndPos(P, s))
    requires !AllOnes(s) ==> Pos(s', |s|) == Pos(s, |s|) + Pow2(0) && Top(F.node, st).p <= s'
    requires i == if AllOnes(s) then 0 else Lsb(s')
    ensures AtNumber(P, F, st, xs, us, h, w, |s|, r + 1, s', i)
  {
    Pow2IsOne();
    hide Pos, Lsb, First, Offset, Pow2, Stacks, RootSize, Sane, Begun, NodeOK, Full;
    if AllOnes(s) {
      OnesPos(s, |s|);
    } else {
      PosBound(s', |s|);
    }
  }

  /** Lines 262-281. */
  method FillWord(ghost P: Plan, entry: Huft, k: nat, i: nat, w: nat, z: nat, q: array<Huft>,
                  ghost F: Forest, ghost st: seq<nat>, ghost s: seq<bool>, ghost r: nat)
    returns (ghost F': Forest)
    requires ValidPlan(P) && Shape(P, F) && Chain(P, F.node, st) && OnPath(P, F.node, st, s) && Word(P, s, r)
    requires Synced(F) && w == |Top(F.node, st).p| && q == F.tabs[st[|st| - 1]] && z == q.Length
    requires k == |s| && i == Lsb(s)
    requires Offset(P.c, k) + r < |P.ent| && entry == P.ent[Offset(P.c, k) + r]
    modifies q
    ensures Filled(P, F, st, s, r, F') && Synced(F')
  {
    hide Pow2, First, Pos, Lsb, Offset, Shr;
    ShrCut(s, w);
    LsbBound(s[w..]);
    ghost var T := st[|st| - 1];
    ghost var hits := FillTable(q, Shr(i, w), Pow2(k - w), z, WithBits(entry, k - w));
    F' := F.(mem := F.mem[T := q[..]], hits := F.hits[T := F.hits[T] + hits]);
    assert HitOnce(F.hits[T], F'.hits[T], |F.mem[T]|, Pow2(k - w), Lsb(s[w..]));
  }

  /** Lines 283-293. */
  method FinishWord(ghost P: Plan, k: nat, i0: nat, l: nat, h0: int, w0: int, x: array<nat>,
                    ghost us: seq<array?<Huft>>, ghost F0: Forest, ghost F: Forest, ghost st0: seq<nat>,
                    ghost s: seq<bool>, ghost r: nat)
    returns (i: nat, h: int, w: int, ghost st: seq<nat>, ghost s': seq<bool>)
    requires ValidPlan(P) && Ready(P, F0, st0, x[..], us, h0, w0, s) && Word(P, s, r)
    requires P.l == l && k == |s| <= w0 + l && i0 == Lsb(s) && x.Length == BMAX + 1
    requires Offset(P.c, |s|) + r < |P.ent| && Filled(P, F0, st0, s, r, F)
    requires Begun(P, F0.node, Pos(s, P.g) + 1)
    ensures AtNumber(P, F, st, x[..], us, h, w, k, r + 1, s', i)
    ensures (h == h0 && w == w0) || k > w + l
  {
    hide Pow2, First, Pos, Lsb, Offset, Begun, Sane;
    PowAtLeast(P.g - k);
    BegunLater(P, F0.node, Pos(s, P.g) + 1, EndPos(P, s));
    i, s' := BackwardsIncrement(i0, k, s);
    AfterFill(P, F0, st0, x[..], us, h0, w0, s, r, F, s');
    h, w, st := BackUp(P, i, k, l, h0, w0, x, us, F, st0, s, s', AllOnes(s));
    AfterBackUp(P, F, st, x[..], us, h, w, s, r, s', i);
  }

  method PlaceWord(ghost P: Plan, c: seq<nat>, v: seq<Cell>, n: nat, s0: nat, d: seq<nat>, e: seq<nat>,
                   k: nat, a: nat, i0: nat, g: nat, l: nat, h0: int, w0: int, z0: nat, q0: array?<Huft>,
                   p0: nat, x: array<nat>, u: array<array?<Huft>>,
                   ghost F0: Forest, ghost st0: seq<nat>, ghost s: seq<bool>)
    returns (i: nat, h: int, w: int, z: nat, q: array?<Huft>, p: nat,
             ghost F: Forest, ghost st: seq<nat>, ghost s': seq<bool>)
    requires ValidPlan(P) && P.c == c && P.g == g && P.l == l && c[g] > 0
    requires n <= |v| && Planned(P, v, n, s0, d, e)
    requires k == |s| && k < |c| && a < c[k] && Word(P, s, c[k] - a - 1) && i0 == Lsb(s)
    requires p0 == Min(Offset(c, k) + c[k] - a - 1, n)
    requires x.Length == BMAX + 1 && u.Length == BMAX && Synced(F0)
    requires Poised(P, F0, st0, x[..], u[..], h0, w0, s, q0, z0)
    requires Begun(P, F0.node, Pos(s, g))
    modifies x, u, Tables(F0)
    ensures Synced(F) && fresh(Tables(F) - Tables(F0))
    ensures AtNumber(P, F, st, x[..], u[..], h, w, k, c[k] - a, s', i)
    ensures k <= w + l ==> q != null && 0 <= h < BMAX && q == u[h] && z == q.Length
    ensures p == Min(Offset(c, k) + c[k] - a, n)
    ensures Narrow(P, F.node) <==> Narrow(P, F0.node) && NarrowWord(c, g, l, k, c[k] - a - 1)
  {
    hide Pow2, First, Pos, Lsb, Offset, Sane, NodeOK, AtNumber, Full, Unstarted, Balanced, Begun, NarrowWord;
    ghost var r := c[k] - a - 1;
    OffsetRange(P, k, r);
    ghost var F1, st1;
    h, w, z, q, F1, st1 := Descend(P, c, k, a, i0, g, l, h0, w0, z0, q0, x, u, F0, st0, s);
    assert q == F1.tabs[st1[h]] && F1.tabs[st1[h]] in Tables(F1);
    F := FillWord(P, EntryFor(v, p0, n, s0, d, e), k, i0, w, z, q, F1, st1, s, r);
    p := if p0 >= n then p0 else p0 + 1;
    hide Ready, Filled, Stacks, Standing, Shape, Chain, Planned, EntryFor, ValidPlan, OnPath, Word;
    ghost var h1, w1 := h, w;
    i, h, w, st, s' := FinishWord(P, k, i0, l, h, w, x, u[..], F1, F, st1, s, r);
    assert k <= w + l ==> h == h1 && w == w1;
  }

  function Min(a: nat, b: nat): nat { if a < b then a else b }

  /** The plan's entries are those of the value table. */
  ghost predicate Planned(P: Plan, v: seq<Cell>, n: nat, s0: nat, d: seq<nat>, e: seq<nat>)
    requires n <= |v|
  {
    forall j {:trigger P.ent[j]} :: 0 <= j < |P.ent| ==> P.ent[j] == EntryFor(v, Min(j, n), n, s0, d, e)
  }

  lemma OffsetRange(P: Plan, k: nat, r: nat)
    requires ValidPlan(P) && 1 <= k <= P.g && r < P.c[k]
    ensures Offset(P.c, k) + r < |P.ent|
  {
    OffsetGrows(P.c, k, P.g);
  }

  // ---- All code words: lines 196-297 --------------------------------------

  /** The state at the head of the inner loop, first table made or not. */
  ghost predicate AtHead(P: Plan, F: Forest, st: seq<nat>, xs: seq<nat>, us: seq<array?<Huft>>,
                         h: int, w: int, k: nat, r: nat, s: seq<bool>, i: nat)
  {
    || AtNumber(P, F, st, xs, us, h, w, k, r, s, i)
    || (Unstarted(P, F, st, h, w, s) && |xs| > 0 && xs[0] == 0 && i == 0 &&
        k == |s| && k < |P.c| && r == 0 && First(P.c, k) == 0 && Msb(s) == 0 && P.c[k] > 0)
  }

  /** Words remain below length `k` only while the space is not full. */
  lemma RoomLeft(P: Plan, k: nat, r: nat)
    requires ValidPlan(P) && 1 <= k <= P.g && r < P.c[k]
    ensures First(P.c, k) + r < Pow2(k)
  {
    FullBelow(P.c, k, P.g);
  }

  lemma NextLength(P: Plan, F: Forest, st: seq<nat>, xs: seq<nat>, us: seq<array?<Huft>>,
                   h: int, w: int, k: nat, s: seq<bool>, i: nat)
    requires ValidPlan(P) && P.c[P.g] > 0 && k < P.g
    requires AtNumber(P, F, st, xs, us, h, w, k, P.c[k], s, i)
    ensures AtNumber(P, F, st, xs, us, h, w, k + 1, 0, s + Zeros(1), i)
  {
    hide Pos, Lsb, First, Sane, Begun;
    assert Pow2(k + 1) == 2 * Pow2(k);
    NotFullYet(P, k);
    LengthenOnPath(P, F.node, st, s);
    assert Zeros(1) == [false];
    MsbAppend(s, false);
    NextFirst(P.c, k);
  }

  lemma NextFirst(c: seq<nat>, k: nat)
    requires 1 <= k < |c|
    ensures First(c, k + 1) == 2 * (First(c, k) + c[k])
  {
  }

  lemma NotFullYet(P: Plan, k: nat)
    requires ValidPlan(P) && P.c[P.g] > 0 && 1 <= k < P.g
    ensures First(P.c, k) + P.c[k] < Pow2(k)
  {
    FullLater(P, k);
    assert 1 * Pow2(k) == Pow2(k);
  }

  /** The first n words of length k meet no over-wide index. */
  ghost predicate NarrowWords(c: seq<nat>, g: nat, l: nat, k: nat, n: nat)
  {
    forall r: nat :: r < n ==> NarrowWord(c, g, l, k, r)
  }

  /** A word remains to be placed: the state at the head of the loop is ready for it. */
  lemma PoisedAt(P: Plan, F: Forest, st: seq<nat>, xs: seq<nat>, us: seq<array?<Huft>>,
                 h: int, w: int, k: nat, r: nat, s: seq<bool>, i: nat, q: array?<Huft>, z: nat)
    requires ValidPlan(P) && 1 <= k <= P.g && r < P.c[k] && First(P.c, k) + r < Pow2(k)
    requires AtHead(P, F, st, xs, us, h, w, k, r, s, i)
    requires k <= w + P.l ==> 0 <= h < |us| && q != null && q == us[h] && z == q.Length
    ensures |s| == k && Word(P, s, r) && i == Lsb(s)
    ensures Poised(P, F, st, xs, us, h, w, s, q, z) && Begun(P, F.node, Pos(s, P.g))
  {
    hide Pow2, First, Pos, Lsb, Sane, NodeOK, Full;
  }

  /** After a word the state is at the head of the loop again. */
  lemma HeadAgain(P: Plan, F: Forest, st: seq<nat>, xs: seq<nat>, us: seq<array?<Huft>>,
                  h: int, w: int, k: nat, r: nat, s: seq<bool>, i: nat)
    requires AtNumber(P, F, st, xs, us, h, w, k, r, s, i)
    ensures AtHead(P, F, st, xs, us, h, w, k, r, s, i)
  {
  }

  lemma HeadDone(P: Plan, F: Forest, st: seq<nat>, xs: seq<nat>, us: seq<array?<Huft>>,
                 h: int, w: int, k: nat, s: seq<bool>, i: nat)
    requires k < |P.c| && AtHead(P, F, st, xs, us, h, w, k, P.c[k], s, i)
    ensures AtNumber(P, F, st, xs, us, h, w, k, P.c[k], s, i)
  {
    hide First, Pos, Pow2;
  }

  lemma NoneNarrow(c: seq<nat>, g: nat, l: nat, k: nat)
    ensures NarrowWords(c, g, l, k, 0)
  {
  }

  lemma OneMoreNarrow(c: seq<nat>, g: nat, l: nat, k: nat, n: nat)
    ensures NarrowWords(c, g, l, k, n + 1) <==> NarrowWords(c, g, l, k, n) && NarrowWord(c, g, l, k, n)
  {
    hide NarrowWord;
  }

  /** One turn of the loop of line 212. */
  method PlaceNext(ghost P: Plan, c: seq<nat>, v: seq<Cell>, n: nat, s0: nat, d: seq<nat>, e: seq<nat>,
                   k: nat, a: nat, i0: nat, g: nat, l: nat, h0: int, w0: int, z0: nat, q0: array?<Huft>,
                   p0: nat, x: array<nat>, u: array<array?<Huft>>,
                   ghost F0: Forest, ghost st0: seq<nat>, ghost s0': seq<bool>)
    returns (i: nat, h: int, w: int, z: nat, q: array?<Huft>, p: nat,
             ghost F: Forest, ghost st: seq<nat>, ghost s: seq<bool>)
    requires ValidPlan(P) && P.c == c && P.g == g && P.l == l && c[g] > 0 && 1 <= k <= g && a < c[k]
    requires n <= |v| && Planned(P, v, n, s0, d, e)
    requires p0 == Min(Offset(c, k) + c[k] - a - 1, n)
    requires x.Length == BMAX + 1 && u.Length == BMAX && Synced(F0)
    requires AtHead(P, F0, st0, x[..], u[..], h0, w0, k, c[k] - a - 1, s0', i0)
    requires k <= w0 + l ==> q0 != null && 0 <= h0 < BMAX && q0 == u[h0] && z0 == q0.Length
    modifies x, u, Tables(F0)
    ensures Synced(F) && fresh(Tables(F) - Tables(F0))
    ensures AtHead(P, F, st, x[..], u[..], h, w, k, c[k] - a, s, i)
    ensures k <= w + l ==> q != null && 0 <= h < BMAX && q == u[h] && z == q.Length
    ensures p == Min(Offset(c, k) + c[k] - a, n)
    ensures Narrow(P, F.node) <==> Narrow(P, F0.node) && NarrowWord(c, g, l, k, c[k] - a - 1)
  {
    hide Pow2, First, Pos, Lsb, Offset, Balanced, Planned, NodeOK, OnPath, Sane, Begun, NarrowWord, AtHead, Poised,
        Ready, AtNumber, NarrowWords;
    ghost var r := c[k] - a - 1;
    RoomLeft(P, k, r);
    PoisedAt(P, F0, st0, x[..], u[..], h0, w0, k, r, s0', i0, q0, z0);
    i, h, w, z, q, p, F, st, s :=
      PlaceWord(P, c, v, n, s0, d, e, k, a, i0, g, l, h0, w0, z0, q0, p0, x, u, F0, st0, s0');
    HeadAgain(P, F, st, x[..], u[..], h, w, k, r + 1, s, i);
  }

  /** The words of one length: lines 210-295. */
  method PlaceLength(ghost P: Plan, c: seq<nat>, v: seq<Cell>, n: nat, s0: nat, d: seq<nat>, e: seq<nat>,
                     k: nat, i0: nat, g: nat, l: nat, h0: int, w0: int, z0: nat, q0: array?<Huft>,
                     p0: nat, x: array<nat>, u: array<array?<Huft>>,
                     ghost F0: Forest, ghost st0: seq<nat>, ghost s0': seq<bool>)
    returns (i: nat, h: int, w: int, z: nat, q: array?<Huft>, p: nat,
             ghost F: Forest, ghost st: seq<nat>, ghost s: seq<bool>)
    requires ValidPlan(P) && P.c == c && P.g == g && P.l == l && c[g] > 0 && 1 <= k <= g
    requires n <= |v| && Planned(P, v, n, s0, d, e)
    requires p0 == Min(Offset(c, k), n)
    requires x.Length == BMAX + 1 && u.Length == BMAX && Synced(F0)
    requires AtHead(P, F0, st0, x[..], u[..], h0, w0, k, 0, s0', i0)
    requires k <= w0 + l ==> q0 != null && 0 <= h0 < BMAX && q0 == u[h0] && z0 == q0.Length
    modifies x, u, Tables(F0)
    ensures Synced(F) && fresh(Tables(F) - Tables(F0))
    ensures AtNumber(P, F, st, x[..], u[..], h, w, k, c[k], s, i)
    ensures k <= w + l ==> q != null && 0 <= h < BMAX && q == u[h] && z == q.Length
    ensures p == Min(Offset(c, k) + c[k], n)
    ensures Narrow(P, F.node) <==> Narrow(P, F0.node) && NarrowWords(c, g, l, k, c[k])
  {
    hide *;
    PlanBounds(P);
    NoneNarrow(c, g, l, k);
    i, h, w, z, q, p := i0, h0, w0, z0, q0, p0;
    F, st, s := F0, st0, s0';
    var a := c[k];
    while a > 0
      invariant a <= c[k]
      invariant Synced(F) && fresh(Tables(F) - Tables(F0))
      invariant AtHead(P, F, st, x[..], u[..], h, w, k, c[k] - a, s, i)
      invariant k <= w + l ==> q != null && 0 <= h < BMAX && q == u[h] && z == q.Length
      invariant p == Min(Offset(c, k) + c[k] - a, n)
      invariant Narrow(P, F.node) <==> Narrow(P, F0.node) && NarrowWords(c, g, l, k, c[k] - a)
    {
      a := a - 1;
      OneMoreNarrow(c, g, l, k, c[k] - a - 1);
      i, h, w, z, q, p, F, st, s :=
        PlaceNext(P, c, v, n, s0, d, e, k, a, i, g, l, h, w, z, q, p, x, u, F, st, s);
    }
    HeadDone(P, F, st, x[..], u[..], h, w, k, s, i);
  }

  method BuildTables(ghost P: Plan, c: seq<nat>, v: seq<Cell>, n: nat, s0: nat, d: seq<nat>, e: seq<nat>,
                     kmin: nat, g: nat, l: nat)
    returns (root: array<Huft>, ghost F: Forest)
    requires ValidPlan(P) && P.c == c && P.g == g && P.l == l && c[g] > 0
    requires n <= |v| && Planned(P, v, n, s0, d, e)
    requires 1 <= kmin <= l && c[kmin] > 0 && forall j :: 1 <= j < kmin ==> c[j] == 0
    ensures Synced(F) && fresh(Tables(F)) && Shape(P, F)
    ensures |F.tabs| > 0 && F.tabs[0] == root && F.node[0] == Node([], l)
    ensures root.Length == RootSize(P)
    ensures Settled(P, F, Pow2(g))
    ensures Narrow(P, F.node) <==> Balanced(c, g, l)
  {
    hide Pow2, First, Pos, Lsb, Offset, Balanced, Planned, NodeOK, OnPath, Begun, NarrowWords, NarrowLengths, Sane,
        Settled, Narrow, AtNumber;
    var x, u := new nat[BMAX + 1], new array?<Huft>[BMAX];
    var i, p, z := 0, 0, 0;
    var h: int, w: int := -1, 0;
    w := w - l;
    var q: array?<Huft> := null;
    x[0] := 0;
    F := NO_FOREST;
    ghost var st: seq<nat>, s := [], Zeros(kmin);
    NothingBefore(c, kmin);
    assert LeastLength(c, 1) == kmin;
    LsbZeros(kmin);
    PosZeros(kmin, kmin);
    PosZeros(kmin, g);
    var k := kmin;
    NarrowNone(P, c, g, l, kmin);
    while k <= g
      invariant kmin <= k <= g + 1
      invariant Synced(F) && fresh(Tables(F))
      invariant k <= g ==> AtHead(P, F, st, x[..], u[..], h, w, k, 0, s, i)
      invariant k <= g ==> k <= w + l ==> q != null && 0 <= h < BMAX && q == u[h] && z == q.Length
      invariant k <= g ==> p == Min(Offset(c, k), n)
      invariant k == g + 1 ==> AtNumber(P, F, st, x[..], u[..], h, w, g, c[g], s, i)
      invariant Narrow(P, F.node) <==> NarrowLengths(c, g, l, k)
    {
      i, h, w, z, q, p, F, st, s :=
        PlaceLength(P, c, v, n, s0, d, e, k, i, g, l, h, w, z, q, p, x, u, F, st, s);
      if k < g {
        NextLength(P, F, st, x[..], u[..], h, w, k, s, i);
        s := s + Zeros(1);
      }
      OffsetStep(c, k);
      NarrowLength(c, g, l, k);
      k := k + 1;
    }
    NarrowAll(c, g, l);
    TablesDone(P, F, st, x[..], u[..], h, w, s, i);
    assert u[0] == F.tabs[0];
    root := u[0];
  }

  /** After the last word the code space is full and every slot is settled. */
  lemma TablesDone(P: Plan, F: Forest, st: seq<nat>, xs: seq<nat>, us: seq<array?<Huft>>,
                   h: int, w: int, s: seq<bool>, i: nat)
    requires ValidPlan(P) && AtNumber(P, F, st, xs, us, h, w, P.g, P.c[P.g], s, i)
    ensures Standing(P, F, st, xs, us, h, w)
    ensures Settled(P, F, Pow2(P.g))
  {
    hide Pow2, First, Pos, Lsb, Offset, Settled, Covered, Begun, NodeOK;
  }

  /** No word shorter than k meets an over-wide index. */
  ghost predicate NarrowLengths(c: seq<nat>, g: nat, l: nat, k: nat)
  {
    forall k': nat, r: nat, w: nat, M: nat :: k' < k ==> !TooWide(c, g, l, k', r, w, M)
  }

  lemma NarrowNone(P: Plan, c: seq<nat>, g: nat, l: nat, k: nat)
    requires forall j :: 1 <= j < k && j < |c| ==> c[j] == 0
    ensures NarrowLengths(c, g, l, k) && Narrow(P, NO_FOREST.node)
  {
  }

  lemma NarrowLength(c: seq<nat>, g: nat, l: nat, k: nat)
    requires k < |c|
    ensures NarrowLengths(c, g, l, k + 1) <==> NarrowLengths(c, g, l, k) && NarrowWords(c, g, l, k, c[k])
  {
    if NarrowLengths(c, g, l, k) && NarrowWords(c, g, l, k, c[k]) {
      forall k': nat, r: nat, w: nat, M: nat | k' < k + 1
        ensures !TooWide(c, g, l, k', r, w, M)
      {
        if k' == k && r < c[k] {
          assert NarrowWord(c, g, l, k, r);
        }
      }
    }
  }

  lemma NarrowAll(c: seq<nat>, g: nat, l: nat)
    ensures NarrowLengths(c, g, l, g + 1) <==> Balanced(c, g, l)
  {
  }

  lemma OffsetStep(c: seq<nat>, k: nat)
    requires 1 <= k < |c|
    ensures Offset(c, k + 1) == Offset(c, k) + c[k]
  {
  }
}
