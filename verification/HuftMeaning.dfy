// What the finished tables mean: how often each slot has been stored, what it
// holds, and which bit strings the decoder's look-ups (boot/zBoot/inflate.c:353-362)
// lead to memory that was never written.
module HuftMeaning {
  import opened Bits
  import opened Canonical
  import opened HuftTables
  import opened HuftSteps

  // ---- The code word at the head of a string --------------------------------

  /** A string before the end of the codes of length k begins with a code word. */
  lemma {:induction false} SomeCode(c: seq<nat>, g: nat, k: nat, S: seq<bool>)
    requires 1 <= k <= g == |S| < |c| && Pos(S, g) < End(c, k, g)
    ensures exists k': nat, r: nat :: CodeAt(c, k', r, S)
    decreases k
  {
    hide First, Pos, Pow2;
    var u, m, t := Pow2(g - k), Msb(S[..k]), S[..k];
    PosScale(t, g);
    PrefixInside(t, S, g);
    if Pos(S, g) >= Start(c, k, g) {
      Distribute(m, 1, u);
      CompareScaled(m, First(c, k) + c[k], u);
      CompareScaled(m + 1, First(c, k), u);
      assert CodeAt(c, k, m - First(c, k), S);
    } else if k > 1 {
      StartAfterEnd(c, k - 1, g);
      SomeCode(c, g, k - 1, S);
    } else {
      NothingBefore(c, 1);
    }
  }

  /** A full code has a word for every string. */
  lemma FindWord(P: Plan, R: seq<bool>) returns (s: seq<bool>, r: nat)
    requires ValidPlan(P) && |R| >= P.g
    ensures Word(P, s, r) && s <= R
  {
    hide First, Pos, Pow2, Offset;
    var S := R[..P.g];
    PosBound(S, P.g);
    Pow2IsOne();
    SomeCode(P.c, P.g, P.g, S);
    var k: nat, n: nat :| CodeAt(P.c, k, n, S);
    s, r := S[..k], n;
  }

  /** The word lies deeper than any table on its way. */
  lemma WordBeyond(P: Plan, n: Node, R: seq<bool>, s: seq<bool>, r: nat)
    requires ValidPlan(P) && Needed(P, n) && n.p <= R && Word(P, s, r) && s <= R
    ensures n.p < s
  {
    hide First, Pos, Pow2, Offset, Word, ValidPlan;
    if |s| <= |n.p| {
      var s', r': nat :| Word(P, s', r') && n.p < s';
      assert s <= n.p by { assert s == R[..|s|] == n.p[..|s|]; }
      WordsMeet(P, s, r, s', r');
    }
  }

  // ---- Tables and their children ----------------------------------------------

  lemma {:induction false} Levelled(P: Plan, N: seq<Node>, T: nat) returns (h: nat)
    requires Rooted(P, N) && T < |N|
    ensures |N[T].p| == h * P.l
    decreases T
  {
    h := 0;
    if T > 0 {
      assert HasParent(P, N, T);
      var T0: nat :| Under(P, N, T0, T);
      var h0 := Levelled(P, N, T0);
      h := h0 + 1;
      AddOne(h0, P.l);
    }
  }

  lemma AddOne(h: nat, l: nat)
    ensures (h + 1) * l == h * l + l
  {
  }

  /** Two levels that are not neighbours. */
  lemma FurtherLevel(h: nat, h': nat, l: nat)
    requires h * l < h' * l && h' * l != h * l + l
    ensures h * l + l < h' * l
  {
    if h' <= h {
      MulLe(h', h, l);
    } else if h' > h + 1 {
      MulLe(h + 2, h', l);
      AddOne(h, l);
      AddOne(h + 1, l);
    } else {
      AddOne(h, l);
    }
  }

  /** From a table on the way to `s`, climbing down leads to the next one. */
  lemma {:induction false} Climb(P: Plan, N: seq<Node>, T: nat, C: nat, s: seq<bool>) returns (T': nat)
    requires P.l >= 1 && Rooted(P, N) && Distinct(N) && T < |N| && C < |N|
    requires N[T].p <= s && N[C].p <= s && |N[T].p| < |N[C].p|
    ensures Under(P, N, T, T') && N[T'].p <= s
    decreases C
  {
    assert HasParent(P, N, C);
    var B: nat :| Under(P, N, B, C);
    if |N[C].p| == |N[T].p| + P.l {
      assert N[B].p == s[..|N[T].p|] == N[T].p;
      T' := C;
    } else {
      var h := Levelled(P, N, T);
      var h' := Levelled(P, N, C);
      FurtherLevel(h, h', P.l);
      T' := Climb(P, N, T, B, s);
    }
  }

  /** A word that lies deeper than a table has a table one level below it. */
  lemma ChildFor(P: Plan, N: seq<Node>, T: nat, s: seq<bool>, r: nat) returns (T': nat)
    requires ValidPlan(P) && Rooted(P, N) && Distinct(N) && Housed(P, N, Pow2(P.g))
    requires T < |N| && N[T].p <= s && Word(P, s, r) && |N[T].p| + P.l < |s|
    ensures Under(P, N, T, T') && N[T'].p <= s
  {
    hide First, Pos, Pow2, Offset, Rooted, Distinct;
    PlanWidth(P);
    PosBefore(s, P.g);
    var C: nat :| Houses(P, N, C, s);
    T' := Climb(P, N, T, C, s);
  }

  lemma PosBefore(s: seq<bool>, g: nat)
    requires |s| <= g
    ensures Pos(s, g) < Pow2(g)
  {
    PosBound(s, g);
  }

  // ---- Slots -------------------------------------------------------------------

  /**
   * The next bits of R pick a slot beyond those that links fill: the index has
   * more than `l` bits, the code word goes on below, and not all bits past the
   * first `l` are 0.
   */
  ghost predicate Stray(P: Plan, n: Node, R: seq<bool>, k: nat)
  {
    && n.p <= R && P.l < n.nb && |n.p| + P.l < k && |n.p| + n.nb <= |R|
    && R[|n.p| + P.l..|n.p| + n.nb] != Zeros(n.nb - P.l)
  }

  ghost function SlotOf(n: Node, R: seq<bool>): nat
    requires |n.p| + n.nb <= |R|
  {
    Lsb(R[|n.p|..|n.p| + n.nb])
  }

  /** The bits of an index, cut at some point. */
  lemma IndexCut(R: seq<bool>, w: nat, nb: nat, d: nat)
    requires w + nb <= |R| && d <= nb
    ensures Congruent(Lsb(R[w..w + nb]), Pow2(d), Lsb(R[w..w + d]))
    ensures R[w + d..w + nb] == Zeros(nb - d) ==> Lsb(R[w..w + nb]) == Lsb(R[w..w + d])
    ensures R[w + d..w + nb] != Zeros(nb - d) ==> Lsb(R[w..w + nb]) >= Pow2(d)
  {
    var x, y := R[w..w + d], R[w + d..w + nb];
    assert R[w..w + nb] == x + y;
    assert (x + y)[..d] == x;
    LsbCut(x + y, d);
    LsbConcat(x, y);
    LsbZeros(nb - d);
    if y != Zeros(nb - d) {
      NotZero(y);
      TimesOne(Pow2(d), Lsb(y));
    }
  }

  lemma TimesOne(u: nat, b: nat)
    requires b >= 1
    ensures u * b >= u
  {
  }

  lemma NotZero(y: seq<bool>)
    requires y != Zeros(|y|)
    ensures Lsb(y) > 0
  {
    LsbZeros(|y|);
    if Lsb(y) == 0 {
      LsbInjective(y, Zeros(|y|));
    }
  }

  /** A code word that ends in the table fills the slot of the bits it begins. */
  lemma EndsHere(P: Plan, n: Node, size: nat, R: seq<bool>, s: seq<bool>, r: nat)
    requires ValidPlan(P) && NodeOK(P, n, size) && |n.p| + n.nb <= |R|
    requires Word(P, s, r) && s <= R && n.p < s && |s| <= |n.p| + P.l
    ensures Fills(P, n, SlotOf(n, R), s, r)
  {
    hide First, Pos, Pow2, Offset, Lsb, Full, Congruent;
    DeepEnough(P, n, size, s, r);
    IndexCut(R, |n.p|, n.nb, |s| - |n.p|);
    assert R[|n.p|..|s|] == s[|n.p|..];
  }

  /** A longer one leads to the table below, if the index has no bit beyond the first `l`. */
  lemma LeadsBelow(P: Plan, N: seq<Node>, T: nat, size: nat, R: seq<bool>, s: seq<bool>, r: nat) returns (T': nat)
    requires ValidPlan(P) && Rooted(P, N) && Distinct(N) && Housed(P, N, Pow2(P.g))
    requires T < |N| && NodeOK(P, N[T], size) && |N[T].p| + N[T].nb <= |R|
    requires Word(P, s, r) && s <= R && N[T].p < s && |N[T].p| + P.l < |s| && !Stray(P, N[T], R, |s|)
    ensures LinkFrom(P, N, T, SlotOf(N[T], R), T') && N[T'].p == R[..|N[T].p| + P.l]
  {
    hide First, Pos, Pow2, Offset, Lsb, Full, Rooted, Distinct, Housed;
    var n := N[T];
    DeepEnough(P, n, size, s, r);
    T' := ChildFor(P, N, T, s, r);
    IndexCut(R, |n.p|, n.nb, P.l);
    assert R[|n.p|..|n.p| + P.l] == N[T'].p[|n.p|..];
    if n.nb == P.l {
      assert R[|n.p| + P.l..|n.p| + n.nb] == [] == Zeros(0);
    }
  }

  /** Else nothing belongs in the slot. */
  lemma StrayUnclaimed(P: Plan, N: seq<Node>, T: nat, R: seq<bool>, s: seq<bool>, r: nat)
    requires ValidPlan(P) && T < |N| && Word(P, s, r) && s <= R && Stray(P, N[T], R, |s|)
    ensures !Claimed(P, N, T, SlotOf(N[T], R), Pow2(P.g))
  {
    hide First, Pos, Pow2, Offset, Lsb, Full, Congruent, Word, ValidPlan;
    var n := N[T];
    var t := SlotOf(n, R);
    forall s', r': nat
      ensures !Fills(P, n, t, s', r')
    {
      if Fills(P, n, t, s', r') {
        var d := |s'| - |n.p|;
        IndexCut(R, |n.p|, n.nb, d);
        LowBitsAgree(t, s'[|n.p|..], R[|n.p|..|n.p| + d]);
        assert R[|n.p|..][..d] == R[|n.p|..|n.p| + d];
        PrefixOfRests(s', R, n.p);
        assert s' == R[..|s'|] && s == R[..|s|];
        assert s[..|s'|] == s';
        WordsMeet(P, s', r', s, r);
      }
    }
    forall T': nat
      ensures !LinkFrom(P, N, T, t, T')
    {
      IndexCut(R, |n.p|, n.nb, P.l);
      if LinkFrom(P, N, T, t, T') {
        LsbBound(N[T'].p[|n.p|..]);
      }
    }
  }

  lemma InMemory(P: Plan, F: Forest, T: nat, R: seq<bool>)
    requires Shape(P, F) && T < |F.node| && |F.node[T].p| + F.node[T].nb <= |R|
    ensures SlotOf(F.node[T], R) < |F.mem[T]|
  {
    assert NodeOK(P, F.node[T], |F.mem[T]|);
    LsbBound(R[|F.node[T].p|..|F.node[T].p| + F.node[T].nb]);
  }

  /** What the slot picked by the next bits holds, in the three cases. */
  lemma SlotCases(P: Plan, F: Forest, T: nat, R: seq<bool>, s: seq<bool>, r: nat) returns (T': nat)
    requires ValidPlan(P) && Shape(P, F) && Settled(P, F, Pow2(P.g))
    requires T < |F.node| && F.node[T].p <= R && |F.node[T].p| + F.node[T].nb <= |R| && Word(P, s, r) && s <= R
    ensures F.node[T].p < s && SlotOf(F.node[T], R) < |F.mem[T]|
    ensures var n, t := F.node[T], SlotOf(F.node[T], R);
      && F.hits[T][t] == (if Stray(P, n, R, |s|) then 0 else 1)
      && (Stray(P, n, R, |s|) ==> F.mem[T][t] == Undef)
      && (!Stray(P, n, R, |s|) && |s| <= |n.p| + P.l ==>
            |s| <= |n.p| + n.nb && F.mem[T][t] == EntryOf(P, |s|, r, |s| - |n.p|))
      && (!Stray(P, n, R, |s|) && |s| > |n.p| + P.l ==>
            && n.nb >= P.l && Under(P, F.node, T, T') && F.node[T'].p == R[..|n.p| + P.l]
            && F.mem[T][t] == LinkTo(F.node[T'].nb, P.l, F.tabs[T']))
  {
    hide First, Pos, Pow2, Offset, Lsb, Full, ValidPlan, Word, Rooted, Distinct, Housed, Needed, EntryOf, Fills;
    hide Stray, SlotOf, WidthOK;
    var n, t := F.node[T], SlotOf(F.node[T], R);
    T' := 0;
    WordBeyond(P, n, R, s, r);
    InMemory(P, F, T, R);
    assert NodeOK(P, n, |F.mem[T]|);
    assert KeptAt(P, F, Pow2(P.g), T, t);
    DeepEnough(P, n, |F.mem[T]|, s, r);
    WordLength(P, s, r);
    PosBefore(s, P.g);
    if Stray(P, n, R, |s|) {
      StrayDeep(P, n, R, |s|);
      StrayUnclaimed(P, F.node, T, R, s, r);
    } else if |s| <= |n.p| + P.l {
      EndsHere(P, n, |F.mem[T]|, R, s, r);
    } else {
      T' := LeadsBelow(P, F.node, T, |F.mem[T]|, R, s, r);
    }
  }

  lemma StrayDeep(P: Plan, n: Node, R: seq<bool>, k: nat)
    requires Stray(P, n, R, k)
    ensures k > |n.p| + P.l
  {
  }

  // ---- Every slot is stored exactly once -----------------------------------------

  /** A long string that picks slot `t`. */
  ghost function Picks(n: Node, t: nat, more: nat): seq<bool>
  {
    SlotString(n, t) + Zeros(more)
  }

  lemma PicksSlot(n: Node, t: nat, more: nat)
    requires t < Pow2(n.nb)
    ensures var R := Picks(n, t, more);
      n.p <= R && |R| == |n.p| + n.nb + more && SlotOf(n, R) == t && R[..|n.p| + n.nb] == SlotString(n, t)
  {
    LsbOfToBits(t, n.nb);
    var R := Picks(n, t, more);
    assert R[|n.p|..|n.p| + n.nb] == ToBits(t, n.nb);
  }

  ghost predicate AtMostOnce(F: Forest)
    requires |F.mem| == |F.hits|
  {
    forall T, t :: 0 <= T < |F.mem| && 0 <= t < |F.mem[T]| ==> F.hits[T][t] <= 1
  }

  /** Every slot that a look-up can reach has been stored exactly once. */
  ghost predicate EachOnce(F: Forest)
    requires |F.node| == |F.hits|
  {
    forall T, t {:trigger F.hits[T][t]} :: 0 <= T < |F.node| && 0 <= t < Pow2(F.node[T].nb) ==> F.hits[T][t] == 1
  }

  lemma NeverTwice(P: Plan, F: Forest, pos: nat)
    requires Shape(P, F) && Kept(P, F, pos)
    ensures AtMostOnce(F)
  {
    hide Claimed, NodeOK;
    forall T, t | 0 <= T < |F.mem| && 0 <= t < |F.mem[T]|
      ensures F.hits[T][t] <= 1
    {
      assert KeptAt(P, F, pos, T, t);
    }
  }

  lemma ThinOnce(P: Plan, F: Forest, T: nat, t: nat)
    requires ValidPlan(P) && Shape(P, F) && Settled(P, F, Pow2(P.g)) && Narrow(P, F.node)
    requires T < |F.node| && t < Pow2(F.node[T].nb)
    ensures F.hits[T][t] == 1
  {
    hide First, Pos, Pow2, Offset, ValidPlan, Settled, Shape;
    var R := Picks(F.node[T], t, P.g);
    PicksSlot(F.node[T], t, P.g);
    var s, r := FindWord(P, R);
    var T' := SlotCases(P, F, T, R, s, r);
  }

  /** Ones beyond a roomy prefix pick a slot that nothing belongs in. */
  lemma OnesStray(P: Plan, n: Node, more: seq<bool>, s: seq<bool>, r: nat)
    requires ValidPlan(P) && P.l < n.nb && Roomy(P, n.p)
    requires Word(P, s, r) && s <= n.p + OneBits(n.nb) + more
    ensures Stray(P, n, n.p + OneBits(n.nb) + more, |s|)
  {
    hide First, Pos, Pow2, Offset, Full, Start, End;
    var R, w, q := n.p + OneBits(n.nb) + more, |n.p|, n.p + OneBits(P.l);
    assert R[w + P.l..w + n.nb][0];
    if |s| <= w + P.l {
      assert s == R[..|s|] == q[..|s|];
      RoomForOne(P, n.p);
      PrefixInside(s, q, P.g);
      WordRange(P, s, r);
      EndMonotone(P.c, |s|, w + P.l, P.g);
      assert false;
    }
  }

  /** A table with an over-wide index has a slot that is never stored. */
  lemma WideNever(P: Plan, F: Forest, T: nat)
    requires ValidPlan(P) && Shape(P, F) && Settled(P, F, Pow2(P.g)) && T < |F.node| && !Thin(P, F.node[T])
    ensures !EachOnce(F)
  {
    hide First, Pos, Pow2, Offset, ValidPlan, Kept, Rooted, Distinct, Housed, Needed, Roomy, Shape, Stray, OneBits;
    var n, more := F.node[T], Zeros(P.g);
    assert WidthOK(P, n);
    var R := n.p + OneBits(n.nb) + more;
    var s, r := FindWord(P, R);
    OnesStray(P, n, more, s, r);
    var T' := SlotCases(P, F, T, R, s, r);
    LsbBound(R[|n.p|..|n.p| + n.nb]);
    HitsMatch(P, F);
    assert F.hits[T][SlotOf(n, R)] == 0;
  }

  lemma HitsMatch(P: Plan, F: Forest)
    requires Shape(P, F)
    ensures |F.node| == |F.hits| == |F.mem| == |F.tabs|
  {
  }

  /** No slot is stored twice, and every one that can be looked up is stored once exactly when no index is over-wide. */
  lemma StoredOnce(P: Plan, F: Forest)
    requires ValidPlan(P) && Shape(P, F) && Settled(P, F, Pow2(P.g))
    ensures AtMostOnce(F) && (EachOnce(F) <==> Narrow(P, F.node))
  {
    hide Pow2, Settled, ValidPlan, Shape, Thin;
    HitsMatch(P, F);
    SettledKept(P, F, Pow2(P.g));
    NeverTwice(P, F, Pow2(P.g));
    if Narrow(P, F.node) {
      forall T, t | 0 <= T < |F.node| && 0 <= t < Pow2(F.node[T].nb)
        ensures F.hits[T][t] == 1
      {
        ThinOnce(P, F, T, t);
      }
    } else {
      var T: nat :| T < |F.node| && !Thin(P, F.node[T]);
      WideNever(P, F, T);
    }
  }

  lemma SettledKept(P: Plan, F: Forest, pos: nat)
    requires Shape(P, F) && Settled(P, F, pos)
    ensures Kept(P, F, pos)
  {
  }

  /** No link reaches the upper half of a doubled root: it repeats the code words of the lower half. */
  lemma UpperHalf(P: Plan, F: Forest, t: nat)
    requires ValidPlan(P) && Shape(P, F) && Settled(P, F, Pow2(P.g)) && |F.node| > 0 && F.node[0] == Node([], P.l)
    requires Pow2(P.l) <= t < |F.mem[0]| && t < 2 * Pow2(P.l)
    ensures F.hits[0][t] == 1 <==> FilledBy(P, F.node[0], t - Pow2(P.l), Pow2(P.g))
    ensures F.mem[0][t] == if F.hits[0][t] == 1 then F.mem[0][t - Pow2(P.l)] else Undef
  {
    hide First, Pos, Pow2, Offset, ValidPlan, Rooted, Distinct, Housed, NodesOK, Word, Lsb, Congruent, EntryOf, NodeOK;
    var n, u := F.node[0], t - Pow2(P.l);
    forall s, r: nat
      ensures Fills(P, n, t, s, r) <==> Fills(P, n, u, s, r)
    {
      if |s| <= P.l {
        SameLowBits(t, P.l, |s|, Lsb(s[0..]));
      }
    }
    forall T': nat
      ensures !LinkFrom(P, F.node, 0, t, T')
    {
      if LinkFrom(P, F.node, 0, t, T') {
        LsbBound(F.node[T'].p[0..]);
      }
    }
    assert KeptAt(P, F, Pow2(P.g), 0, t) && KeptAt(P, F, Pow2(P.g), 0, u);
  }

  lemma SameLowBits(t: nat, l: nat, d: nat, low: nat)
    requires d <= l && Pow2(l) <= t
    ensures Congruent(t, Pow2(d), low) <==> Congruent(t - Pow2(l), Pow2(d), low)
  {
    hide Pow2;
    Pow2Add(d, l - d);
    ShiftMod(t - Pow2(l), Pow2(d), Pow2(l - d));
  }

  lemma ShiftMod(u: nat, a: nat, b: nat)
    requires a > 0
    ensures (u + a * b) % a == u % a
  {
    DivModIs(u, a);
    Spread(a, u / a, b);
    DivModUnique(u + a * b, a, u / a + b, u % a);
  }

  lemma Spread(a: nat, q: nat, b: nat)
    ensures a * (q + b) == a * q + a * b
  {
  }

  // ---- Finished tables -------------------------------------------------------------

  lemma SlotDone(P: Plan, F: Forest, T: nat, t: nat)
    requires ValidPlan(P) && Shape(P, F) && Settled(P, F, Pow2(P.g)) && Narrow(P, F.node)
    requires T < |F.node| && t < Pow2(F.node[T].nb)
    ensures DoneAt(P, F, Pow2(P.g), T, t)
  {
    hide First, Pos, Pow2, Offset, Settled, Shape, ToBits;
    var n := F.node[T];
    var R := Picks(n, t, P.g);
    PicksSlot(n, t, P.g);
    var s, r := FindWord(P, R);
    var T' := SlotCases(P, F, T, R, s, r);
    HitsMatch(P, F);
    var S := SlotString(n, t);
    if |s| <= |n.p| + P.l {
      assert S[..|s|] == R[..|s|] == s;
      OffsetOfWord(P, s, r);
      assert CodeSlot(P, n, S, F.mem[T][t], |s|, r);
    } else {
      assert LinkSlot(F, T, S, F.mem[T][t], T');
    }
  }

  lemma OffsetOfWord(P: Plan, s: seq<bool>, r: nat)
    requires ValidPlan(P) && Word(P, s, r)
    ensures Offset(P.c, |s|) + r < |P.ent|
  {
    OffsetGrows(P.c, |s|, P.g);
  }

  /** When no index is over-wide every slot that can be looked up holds its code word's entry or its link. */
  lemma AllDone(P: Plan, F: Forest)
    requires ValidPlan(P) && Shape(P, F) && Settled(P, F, Pow2(P.g)) && Narrow(P, F.node)
    ensures Done(P, F, Pow2(P.g))
  {
    hide Pow2, Settled, ValidPlan, Shape, DoneAt;
    forall T, t | 0 <= T < |F.node| && 0 <= t < Pow2(F.node[T].nb)
      ensures DoneAt(P, F, Pow2(P.g), T, t)
    {
      SlotDone(P, F, T, t);
    }
  }

  // ---- Which strings are lost ----------------------------------------------------------

  /**
   * The decoder's look-ups (lines 353-362): from table T the next bits of R lead,
   * perhaps through further tables, to memory that was never written.
   */
  ghost predicate Misses(F: Forest, T: nat, R: seq<bool>)
    decreases |R|
  {
    && T < |F.node| == |F.mem| == |F.tabs| && F.node[T].nb <= |R|
    && Lsb(R[..F.node[T].nb]) < |F.mem[T]|
    && var slot := F.mem[T][Lsb(R[..F.node[T].nb])];
       slot == Undef || exists T': nat :: LeadsOn(F, slot, T', |R|) && Misses(F, T', R[slot.b..])
  }

  ghost predicate LeadsOn(F: Forest, slot: Huft, T': nat, n: nat)
  {
    && T' < |F.node| == |F.tabs|
    && slot.Huft? && slot.e == 16 + F.node[T'].nb && slot.t == F.tabs[T'] && 1 <= slot.b <= n
  }

  ghost function OneBits(n: nat): (s: seq<bool>)
    ensures |s| == n && forall i :: 0 <= i < n ==> s[i]
  {
    seq(n, _ => true)
  }

  /** The entries of the plan are symbols, not links. */
  ghost predicate NoLinks(P: Plan)
  {
    forall i :: 0 <= i < |P.ent| ==> P.ent[i].Huft? ==> P.ent[i].t == null
  }

  /** Some table at or below level `w` is one where R goes astray. */
  ghost predicate StraysFrom(P: Plan, N: seq<Node>, R: seq<bool>, k: nat, w: nat)
  {
    exists T :: 0 <= T < |N| && |N[T].p| >= w && Stray(P, N[T], R, k)
  }

  ghost predicate NoEntry(P: Plan, k: nat, r: nat) { EntryOf(P, k, r, 0) == Undef }

  /** A word's entry leads nowhere on, and is unset with any number of bits left or with none. */
  lemma EntryEnds(P: Plan, F: Forest, k: nat, r: nat, b: nat, n: nat)
    requires NoLinks(P)
    ensures EntryOf(P, k, r, b) == Undef <==> NoEntry(P, k, r)
    ensures forall T' :: !LeadsOn(F, EntryOf(P, k, r, b), T', n)
  {
    hide Offset;
  }

  /** A link leads to its table only. */
  lemma LinkLeads(P: Plan, F: Forest, T': nat, n: nat)
    requires Shape(P, F) && Synced(F) && T' < |F.node| && 1 <= P.l <= n
    ensures forall T'': nat :: LeadsOn(F, LinkTo(F.node[T'].nb, P.l, F.tabs[T']), T'', n) <==> T'' == T'
  {
    hide NodeOK;
  }

  lemma {:induction false} MissesFrom(P: Plan, F: Forest, T: nat, R: seq<bool>, s: seq<bool>, r: nat)
    requires ValidPlan(P) && Shape(P, F) && Synced(F) && Settled(P, F, Pow2(P.g)) && NoLinks(P)
    requires T < |F.node| && F.node[T].p <= R && Word(P, s, r) && s <= R && Fits(F.node, R)
    ensures Misses(F, T, R[|F.node[T].p|..]) <==>
      NoEntry(P, |s|, r) || StraysFrom(P, F.node, R, |s|, |F.node[T].p|)
    decreases |R| - |F.node[T].p|
  {
    hide First, Pos, Pow2, Offset, Lsb, Settled, Shape, ValidPlan, Word, Stray, LeadsOn, EntryOf, NoLinks, Synced,
        StraysFrom;
    hide SlotOf, NoEntry;
    var n, w := F.node[T], |F.node[T].p|;
    var rest := R[w..];
    PlanWidth(P);
    var T' := SlotCases(P, F, T, R, s, r);
    HitsMatch(P, F);
    assert rest[..n.nb] == R[w..w + n.nb];
    SlotIs(n, R);
    var slot := F.mem[T][SlotOf(n, R)];
    if Stray(P, n, R, |s|) {
      StraysHere(P, F.node, R, |s|, T);
    } else if |s| <= w + P.l {
      EntryEnds(P, F, |s|, r, |s| - w, |rest|);
      NoneBelow(P, F.node, R, |s|, w);
    } else {
      LinkLeads(P, F, T', |rest|);
      assert rest[P.l..] == R[w + P.l..];
      MissesFrom(P, F, T', R, s, r);
      NoneHere(P, F, R, |s|, T);
    }
  }

  lemma SlotIs(n: Node, R: seq<bool>)
    requires |n.p| + n.nb <= |R|
    ensures SlotOf(n, R) == Lsb(R[|n.p|..|n.p| + n.nb])
  {
  }

  ghost predicate Fits(N: seq<Node>, R: seq<bool>)
  {
    forall T :: 0 <= T < |N| ==> |N[T].p| + N[T].nb <= |R|
  }

  lemma StraysHere(P: Plan, N: seq<Node>, R: seq<bool>, k: nat, T: nat)
    requires T < |N| && Stray(P, N[T], R, k)
    ensures StraysFrom(P, N, R, k, |N[T].p|)
  {
  }

  /** Below the word's own table nothing goes astray. */
  lemma NoneBelow(P: Plan, N: seq<Node>, R: seq<bool>, k: nat, w: nat)
    requires k <= w + P.l
    ensures !StraysFrom(P, N, R, k, w)
  {
  }

  lemma SameTable(N: seq<Node>, C: nat, T: nat, R: seq<bool>)
    requires Distinct(N) && C < |N| && T < |N| && N[C].p <= R && N[T].p <= R && |N[C].p| == |N[T].p|
    ensures C == T
  {
    assert N[C].p == R[..|N[T].p|] == N[T].p;
  }

  /** Between a table and the next level only that table counts. */
  lemma NoneHere(P: Plan, F: Forest, R: seq<bool>, k: nat, T: nat)
    requires Shape(P, F) && Settled(P, F, Pow2(P.g)) && P.l >= 1
    requires T < |F.node| && F.node[T].p <= R && !Stray(P, F.node[T], R, k)
    ensures StraysFrom(P, F.node, R, k, |F.node[T].p|) <==> StraysFrom(P, F.node, R, k, |F.node[T].p| + P.l)
  {
    hide First, Pos, Pow2, NodeOK, Kept, NodesOK, Housed;
    if C :| 0 <= C < |F.node| && |F.node[C].p| >= |F.node[T].p| && Stray(P, F.node[C], R, k) {
      if |F.node[C].p| == |F.node[T].p| {
        SameTable(F.node, C, T, R);
      } else {
        var h := Levelled(P, F.node, T);
        var h' := Levelled(P, F.node, C);
        if |F.node[C].p| < |F.node[T].p| + P.l {
          FurtherLevel(h, h', P.l);
        }
      }
    }
  }

  /**
   * Exactly these strings are lost: those whose code word has an unset entry,
   * and those that go astray at some over-wide table on the way to their code word.
   */
  lemma LossExact(P: Plan, F: Forest, R: seq<bool>, s: seq<bool>, r: nat)
    requires ValidPlan(P) && Shape(P, F) && Synced(F) && Settled(P, F, Pow2(P.g)) && NoLinks(P)
    requires |F.node| > 0 && F.node[0] == Node([], P.l) && Word(P, s, r) && s <= R
    requires |R| > P.g || (Narrow(P, F.node) && |R| >= P.g)
    ensures Misses(F, 0, R) <==> NoEntry(P, |s|, r) || StraysFrom(P, F.node, R, |s|, 0)
  {
    hide First, Pos, Pow2, Offset, Kept, Rooted, Distinct, Housed, Needed, Roomy, Word, ValidPlan, NoLinks, Synced,
        Stray, NodeOK;
    forall T | 0 <= T < |F.node|
      ensures |F.node[T].p| + F.node[T].nb <= |R|
    {
      assert WidthOK(P, F.node[T]);
      if Narrow(P, F.node) {
        assert Thin(P, F.node[T]);
      }
    }
    MissesFrom(P, F, 0, R, s, r);
    assert R[0..] == R;
  }

  lemma {:induction false} OneBitsEnd(n: nat, m: nat)
    requires n <= m
    ensures Pos(OneBits(n), m) + Pow2(m - n) == Pow2(m)
    ensures Lsb(OneBits(n)) + 1 == Pow2(n)
  {
    if n > 0 {
      assert OneBits(n)[1..] == OneBits(n - 1);
      OneBitsEnd(n - 1, m - 1);
    }
  }

  lemma Multiples(x: nat, y: nat, u: nat)
    requires x * u < y * u
    ensures x * u + u <= y * u
  {
    if x >= y {
      MulLe(y, x, u);
    } else {
      MulStep(u, x, y);
      assert u * x == x * u && u * y == y * u && u * (x + 1) == x * u + u;
    }
  }

  /** The codes up to a length end a whole number of words of that length before the prefix does. */
  lemma RoomForOne(P: Plan, p: seq<bool>)
    requires |p| + P.l <= P.g < |P.c| && 1 <= P.l && End(P.c, |p| + P.l, P.g) < EndPos(P, p)
    ensures End(P.c, |p| + P.l, P.g) <= Pos(p + OneBits(P.l), P.g)
  {
    hide Pos, Pow2, First, Msb;
    var u := Pow2(P.g - |p| - P.l);
    PosScale(p, P.g);
    Pow2Add(P.l, P.g - |p| - P.l);
    Distribute(Msb(p), 1, Pow2(P.g - |p|));
    assert (Msb(p) + 1) * (Pow2(P.l) * u) == ((Msb(p) + 1) * Pow2(P.l)) * u;
    Multiples(First(P.c, |p| + P.l) + P.c[|p| + P.l], (Msb(p) + 1) * Pow2(P.l), u);
    PosConcat(p, OneBits(P.l), P.g);
    OneBitsEnd(P.l, P.g - |p|);
  }

}
