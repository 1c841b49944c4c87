// Each step of huft_build's main loop (boot/zBoot/inflate.c:207-297) keeps the
// invariant of HuftTables: descending to a new table, filling the slots of one
// code word, moving on to the next code word, backing up over finished tables.
module HuftSteps {
  import opened Bits
  import opened Canonical
  import opened HuftTables

  /** The codes of length |s| stay within the code space. */
  lemma WordRange(P: Plan, s: seq<bool>, r: nat)
    requires ValidPlan(P) && Word(P, s, r)
    ensures Start(P.c, |s|, P.g) <= Pos(s, P.g)
    ensures Pos(s, P.g) + Pow2(P.g - |s|) <= End(P.c, |s|, P.g)
  {
    WordPos(P.c, |s|, r, s, P.g);
  }

  /** While longer codes remain below a stacked table, it is a full `l` bits wide. */
  lemma DeepEnough(P: Plan, n: Node, size: nat, s: seq<bool>, r: nat)
    requires ValidPlan(P) && NodeOK(P, n, size) && Word(P, s, r) && n.p <= s
    ensures |s| <= |n.p| + n.nb || n.nb >= P.l
  {
    if n.nb < P.l && |n.p| + n.nb < |s| {
      PrefixInside(n.p, s, P.g);
      EndBeforeStart(P.c, |n.p| + n.nb, |s|, P.g);
      WordRange(P, s, r);
    }
  }

  /** No code word begins another. */
  lemma WordsMeet(P: Plan, s: seq<bool>, r: nat, s': seq<bool>, r': nat)
    requires ValidPlan(P) && Word(P, s, r) && Word(P, s', r') && s <= s'
    ensures s == s' && r == r'
  {
    hide First, Pos, Offset, Full;
    assert s'[..|s|] == s && s'[..|s'|] == s';
    PrefixFree(P.c, |s|, r, |s'|, r', s', BMAX);
  }

  /** No code word starts inside another's interval. */
  lemma WordBetween(P: Plan, s: seq<bool>, r: nat, s': seq<bool>, r': nat)
    requires ValidPlan(P) && Word(P, s, r) && Word(P, s', r')
    requires Pos(s, P.g) <= Pos(s', P.g) < EndPos(P, s)
    ensures s == s' && r == r'
  {
    hide First, Pos, Offset, Pow2, Full, Word, Start, End;
    WordLength(P, s, r);
    WordLength(P, s', r');
    if |s| <= |s'| {
      InsideIsPrefix(s, s', P.g);
      WordsMeet(P, s, r, s', r');
    } else {
      WordRange(P, s', r');
      EndBeforeStart(P.c, |s'|, |s|, P.g);
      WordRange(P, s, r);
      assert false;
    }
  }

  lemma WordLength(P: Plan, s: seq<bool>, r: nat)
    requires Word(P, s, r)
    ensures 1 <= |s| <= P.g < |P.c| && r < P.c[|s|]
  {
  }

  // ---- Slots and the words in them ------------------------------------------

  lemma ModMod(t: nat, a: nat, b: nat)
    requires a > 0 && b > 0 && a * b > 0
    ensures (t % (a * b)) % a == t % a
  {
    var q, r := t / (a * b), t % (a * b);
    DivModIs(t, a * b);
    DivModIs(r, a);
    Regroup(a, b, q, r / a);
    DivModUnique(t, a, b * q + r / a, r % a);
  }

  lemma Regroup(a: nat, b: nat, q: nat, e: nat)
    ensures (a * b) * q + a * e == a * (b * q + e)
  {
  }

  /** Bit strings that agree with the low bits of one number begin one another. */
  lemma LowBitsAgree(t: nat, u: seq<bool>, v: seq<bool>)
    requires |u| <= |v| && Congruent(t, Pow2(|u|), Lsb(u)) && Congruent(t, Pow2(|v|), Lsb(v))
    ensures u <= v
  {
    Pow2Add(|u|, |v| - |u|);
    ModMod(t, Pow2(|u|), Pow2(|v| - |u|));
    LsbCut(v, |u|);
    LsbInjective(u, v[..|u|]);
  }

  lemma PrefixOfRests(s: seq<bool>, s': seq<bool>, p: seq<bool>)
    requires p <= s && p <= s' && s[|p|..] <= s'[|p|..]
    ensures s <= s'
  {
    assert s == p + s[|p|..] && s' == p + s'[|p|..];
  }

  /** Two code words that fill one slot are the same. */
  lemma FillsOnce(P: Plan, n: Node, t: nat, s: seq<bool>, r: nat, s': seq<bool>, r': nat)
    requires ValidPlan(P) && Fills(P, n, t, s, r) && Fills(P, n, t, s', r')
    ensures s == s' && r == r'
  {
    hide First, Pos, Offset, Pow2, Lsb, Full, Word, ValidPlan, Congruent;
    var w := |n.p|;
    if |s| <= |s'| {
      LowBitsAgree(t, s[w..], s'[w..]);
      PrefixOfRests(s, s', n.p);
      WordsMeet(P, s, r, s', r');
    } else {
      LowBitsAgree(t, s'[w..], s[w..]);
      PrefixOfRests(s', s, n.p);
      WordsMeet(P, s', r', s, r);
    }
  }

  lemma SmallCongruent(t: nat, step: nat)
    requires t < step
    ensures Congruent(t, step, t)
  {
    DivModUnique(t, step, 0, t);
  }

  /** A code word that fills the slot of a link begins the link's bits. */
  lemma FillsLink(P: Plan, N: seq<Node>, T: nat, t: nat, T': nat, s: seq<bool>, r: nat)
    requires LinkFrom(P, N, T, t, T') && Fills(P, N[T], t, s, r)
    ensures s <= N[T'].p
  {
    hide First, Pos, Offset, Pow2, Lsb, Full, Word, Congruent;
    var p, p' := N[T].p, N[T'].p;
    LsbBound(p'[|p|..]);
    SmallCongruent(t, Pow2(P.l));
    LowBitsAgree(t, s[|p|..], p'[|p|..]);
    PrefixOfRests(s, p', p);
  }

  // ---- The table stack --------------------------------------------------------

  /** Only the tables on the stack lie on the way to the word that comes next. */
  lemma StackOnly(P: Plan, N: seq<Node>, st: seq<nat>, s: seq<bool>, T: nat)
    requires P.l >= 1 && Chain(P, N, st) && |s| <= P.g && Covered(P, N, st, Pos(s, P.g))
    requires T < |N| && N[T].p <= s
    ensures T == st[|st| - 1] || |N[T].p| + P.l <= |Top(N, st).p|
  {
    hide Pos, Pow2, Chain, Covered;
    OnTheStack(P, N, st, s, T);
    var h: nat :| h < |st| && st[h] == T;
    LowerOnStack(P, N, st, h);
  }

  lemma OnTheStack(P: Plan, N: seq<Node>, st: seq<nat>, s: seq<bool>, T: nat)
    requires |s| <= P.g && Covered(P, N, st, Pos(s, P.g)) && T < |N| && N[T].p <= s
    ensures T in st
  {
    hide Pos, Pow2;
    PrefixInside(N[T].p, s, P.g);
  }

  lemma LowerOnStack(P: Plan, N: seq<Node>, st: seq<nat>, h: nat)
    requires P.l >= 1 && Chain(P, N, st) && h < |st|
    ensures h == |st| - 1 || |N[st[h]].p| + P.l <= |Top(N, st).p|
  {
    ChainMultiple(P, N, st, h);
    ChainMultiple(P, N, st, |st| - 1);
    if h < |st| - 1 {
      MulStep(P.l, h, |st| - 1);
      Commute(P.l, h, |st| - 1);
    }
  }

  /** A table off the path is finished, so no word to come begins its bits. */
  lemma NotBelow(P: Plan, N: seq<Node>, st: seq<nat>, s: seq<bool>, T: nat)
    requires Chain(P, N, st) && |s| <= P.g && Covered(P, N, st, Pos(s, P.g)) && P.l >= 1
    requires T < |N| && |Top(N, st).p| < |N[T].p|
    ensures !(s <= N[T].p)
  {
    hide Pos, Pow2;
    if T in st {
      var h: nat :| h < |st| && st[h] == T;
      ChainPrefix(P, N, st, h, |st| - 1);
    } else if s <= N[T].p {
      PrefixInside(s, N[T].p, P.g);
    }
  }

  // ---- Descending: lines 216-259 ------------------------------------------

  ghost function Pushed(P: Plan, F: Forest, st: seq<nat>, m: Node, tab: array<Huft>): Forest
    requires Shape(P, F) && Chain(P, F.node, st)
    requires Top(F.node, st).p <= m.p && Lsb(m.p[|Top(F.node, st).p|..]) < |F.mem[st[|st| - 1]]|
  {
    var T := st[|st| - 1];
    var j := Lsb(m.p[|F.node[T].p|..]);
    Forest(F.tabs + [tab],
           F.node + [m],
           F.mem[T := F.mem[T][j := LinkTo(m.nb, P.l, tab)]] + [seq(Pow2(m.nb), _ => Undef)],
           F.hits[T := F.hits[T] + multiset{j}] + [multiset{}])
  }

  /** Word `s` lies deeper than the table on top: a table for its next `l` bits is made. */
  ghost predicate Pushes(P: Plan, F: Forest, st: seq<nat>, s: seq<bool>, r: nat, m: Node, tab: array<Huft>, F': Forest)
  {
    && ValidPlan(P) && Shape(P, F) && Chain(P, F.node, st) && OnPath(P, F.node, st, s) && Word(P, s, r)
    && var w := |Top(F.node, st).p|;
       && w + P.l < |s| && m.p == s[..w + P.l] && NodeOK(P, m, Pow2(m.nb))
       && m.p[w..] == s[w..w + P.l] && Lsb(m.p[w..]) < |F.mem[st[|st| - 1]]|
       && F' == Pushed(P, F, st, m, tab)
  }

  /** The slot that must lead to the new table. */
  lemma LinkIndex(P: Plan, n: Node, size: nat, s: seq<bool>, r: nat)
    requires ValidPlan(P) && NodeOK(P, n, size) && Word(P, s, r) && n.p <= s
    requires |n.p| + P.l < |s| && Pos(s[..|n.p| + P.l], P.g) == Pos(s, P.g)
    ensures n.nb >= P.l
    ensures Lsb(s[|n.p|..|n.p| + P.l]) < Pow2(P.l) <= size
    ensures Lsb(s[..|n.p| + P.l]) == Lsb(s)
  {
    hide Pos, Lsb, First;
    DeepEnough(P, n, size, s, r);
    LsbBound(s[|n.p|..|n.p| + P.l]);
    Pow2Monotone(P.l, n.nb);
    AlignedLsb(P, s, |n.p| + P.l);
  }

  /** If `s` starts where its prefix starts, the bits after the prefix are all 0. */
  lemma AlignedLsb(P: Plan, s: seq<bool>, w: nat)
    requires w <= |s| <= P.g && Pos(s[..w], P.g) == Pos(s, P.g)
    ensures Lsb(s[..w]) == Lsb(s)
  {
    assert s == s[..w] + s[w..];
    PosConcat(s[..w], s[w..], P.g);
    PosZeroIsZeros(s[w..], P.g - w);
    LsbPadded(s[..w], |s| - w);
  }

  lemma PushCore(P: Plan, F: Forest, st: seq<nat>, s: seq<bool>, r: nat, m: Node, tab: array<Huft>, F': Forest)
    requires Pushes(P, F, st, s, r, m, tab, F')
    ensures Shape(P, F') && Chain(P, F'.node, st + [|F.node|]) && OnPath(P, F'.node, st + [|F.node|], s)
  {
    hide Pow2, First, Lsb;
    var st' := st + [|F.node|];
    var w := |Top(F.node, st).p|;
    forall h | 0 <= h < |st'| - 1
      ensures ChainAt(P, F'.node, st', h)
    {
      if h < |st| - 1 {
        assert ChainAt(P, F.node, st, h);
      }
    }
    if w + P.l + P.l < |s| {
      PrefixInside(s[..w + P.l], s[..w + P.l + P.l], P.g);
      PrefixInside(s[..w + P.l + P.l], s, P.g);
    }
  }

  /** No word before `s` lies below the new table. */
  lemma PushFresh(P: Plan, m: Node, s: seq<bool>, t: nat)
    requires m.p <= s && |s| <= P.g && Pos(m.p, P.g) == Pos(s, P.g)
    ensures !FilledBy(P, m, t, Pos(s, P.g))
  {
    hide Pos, Pow2, Lsb, First, Congruent;
    forall s', r': nat | Fills(P, m, t, s', r')
      ensures Pos(s', P.g) >= Pos(s, P.g)
    {
      PrefixInside(m.p, s', P.g);
    }
  }

  /** No code word belongs in the slot of the new link. */
  lemma PushClear(P: Plan, n: Node, s: seq<bool>, r: nat, t: nat, pos: nat)
    requires ValidPlan(P) && Word(P, s, r) && n.p <= s && |n.p| + P.l < |s|
    requires t == Lsb(s[|n.p|..|n.p| + P.l])
    ensures !FilledBy(P, n, t, pos)
  {
    hide Pos, Pow2, Lsb, First, Congruent, Word, ValidPlan;
    forall s', r': nat | Fills(P, n, t, s', r')
      ensures false
    {
      var v := s[|n.p|..|n.p| + P.l];
      LsbBound(v);
      SmallCongruent(t, Pow2(P.l));
      LowBitsAgree(t, s'[|n.p|..], v);
      assert s[|n.p|..][..P.l] == v;
      PrefixOfRests(s', s, n.p);
      WordsMeet(P, s', r', s, r);
    }
  }

  /** No link leads from there yet. */
  lemma PushUnlinked(P: Plan, N: seq<Node>, st: seq<nat>, s: seq<bool>, t: nat, T': nat)
    requires P.l >= 1 && Chain(P, N, st) && |s| <= P.g && Covered(P, N, st, Pos(s, P.g))
    requires Top(N, st).p <= s && |Top(N, st).p| + P.l < |s|
    requires t == Lsb(s[|Top(N, st).p|..|Top(N, st).p| + P.l])
    ensures !LinkFrom(P, N, st[|st| - 1], t, T')
  {
    hide Pos, Pow2, Lsb, Covered;
    if LinkFrom(P, N, st[|st| - 1], t, T') {
      var p, p' := Top(N, st).p, N[T'].p;
      LsbInjective(p'[|p|..], s[|p|..|p| + P.l]);
      assert s[|p|..][..P.l] == s[|p|..|p| + P.l];
      PrefixOfRests(p', s, p);
      StackOnly(P, N, st, s, T');
    }
  }

  /** The table on top is the only one the new table lies under. */
  lemma PushParent(P: Plan, N: seq<Node>, st: seq<nat>, s: seq<bool>, m: Node, T: nat)
    requires P.l >= 1 && Chain(P, N, st) && |s| <= P.g && Covered(P, N, st, Pos(s, P.g))
    requires m.p <= s && Top(N, st).p <= m.p && |m.p| == |Top(N, st).p| + P.l && T < |N|
    ensures N[T].p != m.p
    ensures Under(P, N + [m], T, |N|) <==> T == st[|st| - 1]
  {
    hide Pos, Pow2, Covered;
    if N[T].p <= s {
      StackOnly(P, N, st, s, T);
    }
  }

  /** A slot other than the new link's has what it had. */
  lemma PushClaims(P: Plan, N: seq<Node>, st: seq<nat>, s: seq<bool>, m: Node, T: nat, t: nat, pos: nat)
    requires P.l >= 1 && Chain(P, N, st) && |s| <= P.g && Covered(P, N, st, Pos(s, P.g))
    requires m.p <= s && Top(N, st).p <= m.p && |m.p| == |Top(N, st).p| + P.l && T < |N|
    requires T != st[|st| - 1] || t != Lsb(m.p[|Top(N, st).p|..])
    ensures Claimed(P, N + [m], T, t, pos) == Claimed(P, N, T, t, pos)
    ensures forall T': nat :: LinkFrom(P, N + [m], T, t, T') ==> T' < |N| && LinkFrom(P, N, T, t, T')
  {
    hide Pos, Pow2, Lsb, Covered, FilledBy;
    PushParent(P, N, st, s, m, T);
    forall T': nat
      ensures LinkFrom(P, N + [m], T, t, T') <==> T' < |N| && LinkFrom(P, N, T, t, T')
    {
    }
  }

  /** The slots of the table below, and of the new one, as far as they matter here. */
  lemma PushedParts(P: Plan, F: Forest, st: seq<nat>, s: seq<bool>, r: nat, m: Node, tab: array<Huft>, F': Forest)
    requires Pushes(P, F, st, s, r, m, tab, F')
    ensures F'.node == F.node + [m] && F'.tabs == F.tabs + [tab]
    ensures |F'.mem| == |F.mem| + 1 == |F'.hits| && |F.hits| == |F.mem|
    ensures F'.mem[|F.mem|] == seq(Pow2(m.nb), _ => Undef) && F'.hits[|F.mem|] == multiset{}
    ensures forall T :: 0 <= T < |F.mem| ==> |F'.mem[T]| == |F.mem[T]|
  {
    hide Pow2, First, Lsb, Pos, NodeOK;
  }

  lemma PushedSlot(P: Plan, F: Forest, st: seq<nat>, s: seq<bool>, r: nat, m: Node, tab: array<Huft>, F': Forest,
                   T: nat, t: nat)
    requires Pushes(P, F, st, s, r, m, tab, F') && T < |F.node| && t < |F.mem[T]|
    ensures T < |F'.mem| && t < |F'.mem[T]| && T < |F'.hits|
    ensures var link := T == st[|st| - 1] && t == Lsb(m.p[|Top(F.node, st).p|..]);
      && F'.mem[T][t] == (if link then LinkTo(m.nb, P.l, tab) else F.mem[T][t])
      && F'.hits[T][t] == F.hits[T][t] + if link then 1 else 0
  {
    hide Pow2, First, Lsb, Pos, NodeOK;
  }

  lemma PushesParts(P: Plan, F: Forest, st: seq<nat>, s: seq<bool>, r: nat, m: Node, tab: array<Huft>, F': Forest)
    requires Pushes(P, F, st, s, r, m, tab, F')
    ensures ValidPlan(P) && Shape(P, F) && Chain(P, F.node, st) && Word(P, s, r) && P.l >= 1 && |s| <= P.g
    ensures var p := Top(F.node, st).p;
      && p <= m.p <= s && |m.p| == |p| + P.l < |s| && m.p[|p|..] == s[|p|..|p| + P.l]
      && Pos(m.p, P.g) == Pos(s, P.g) && Lsb(m.p[|p|..]) < |F.mem[st[|st| - 1]]|
  {
    hide Pow2, First, Lsb, Pos, NodeOK;
  }

  lemma PushKeptAt(P: Plan, F: Forest, st: seq<nat>, s: seq<bool>, r: nat, m: Node, tab: array<Huft>, F': Forest,
                   T: nat, t: nat)
    requires Pushes(P, F, st, s, r, m, tab, F') && Shape(P, F')
    requires Covered(P, F.node, st, Pos(s, P.g)) && Kept(P, F, Pos(s, P.g))
    requires T < |F'.node| && t < |F'.mem[T]|
    ensures KeptAt(P, F', Pos(s, P.g), T, t)
  {
    hide Pow2, First, Lsb, Pos, NodeOK, Pushes, Covered, Fills, FilledBy, ValidPlan, Word, Pushed, EntryOf;
    PushesParts(P, F, st, s, r, m, tab, F');
    PushedParts(P, F, st, s, r, m, tab, F');
    if T == |F.node| {
      PushFresh(P, m, s, t);
      NotFilled(P, m, t, Pos(s, P.g));
    } else {
      assert KeptAt(P, F, Pos(s, P.g), T, t);
      PushedSlot(P, F, st, s, r, m, tab, F', T, t);
      if T == st[|st| - 1] && t == Lsb(m.p[|Top(F.node, st).p|..]) {
        PushLinkKept(P, F, st, s, r, m, tab, F', T, t);
      } else {
        PushClaims(P, F.node, st, s, m, T, t, Pos(s, P.g));
      }
    }
  }

  lemma NotFilled(P: Plan, n: Node, t: nat, pos: nat)
    requires !FilledBy(P, n, t, pos)
    ensures forall s, r: nat :: Fills(P, n, t, s, r) ==> !(Pos(s, P.g) < pos)
  {
    hide Pos;
  }

  lemma PushLinkKept(P: Plan, F: Forest, st: seq<nat>, s: seq<bool>, r: nat, m: Node, tab: array<Huft>, F': Forest,
                     T: nat, t: nat)
    requires Pushes(P, F, st, s, r, m, tab, F') && Shape(P, F')
    requires Covered(P, F.node, st, Pos(s, P.g)) && Kept(P, F, Pos(s, P.g))
    requires T == st[|st| - 1] && t == Lsb(m.p[|Top(F.node, st).p|..]) && t < |F'.mem[T]|
    ensures KeptAt(P, F', Pos(s, P.g), T, t)
  {
    hide Pow2, First, Lsb, Pos, NodeOK, Pushes, Covered, Fills, FilledBy, ValidPlan, Word, Pushed, EntryOf;
    PushesParts(P, F, st, s, r, m, tab, F');
    PushedParts(P, F, st, s, r, m, tab, F');
    PushedSlot(P, F, st, s, r, m, tab, F', T, t);
    assert KeptAt(P, F, Pos(s, P.g), T, t);
    PushClear(P, F.node[T], s, r, t, Pos(s, P.g));
    NotFilled(P, F.node[T], t, Pos(s, P.g));
    forall T': nat
      ensures !LinkFrom(P, F.node, T, t, T')
      ensures LinkFrom(P, F'.node, T, t, T') ==> T' == |F.node|
    {
      PushUnlinked(P, F.node, st, s, t, T');
    }
    assert LinkFrom(P, F'.node, T, t, |F.node|);
  }

  lemma PushSettled(P: Plan, F: Forest, st: seq<nat>, s: seq<bool>, r: nat, m: Node, tab: array<Huft>, F': Forest)
    requires Pushes(P, F, st, s, r, m, tab, F') && Shape(P, F')
    requires Covered(P, F.node, st, Pos(s, P.g)) && Settled(P, F, Pos(s, P.g)) && WidthOK(P, m)
    ensures Settled(P, F', Pos(s, P.g)) && Covered(P, F'.node, st + [|F.node|], Pos(s, P.g))
  {
    hide Pow2, First, Lsb, Pos, NodeOK, Pushes, KeptAt, Covered, ValidPlan, Word, Pushed, WidthOK, Houses;
    PushesParts(P, F, st, s, r, m, tab, F');
    PushedParts(P, F, st, s, r, m, tab, F');
    forall T, t | 0 <= T < |F'.node| && 0 <= t < |F'.mem[T]|
      ensures KeptAt(P, F', Pos(s, P.g), T, t)
    {
      PushKeptAt(P, F, st, s, r, m, tab, F', T, t);
    }
    PushNodes(P, F.node, st, s, r, m);
    PushCovered(P, F.node, st, s, m);
  }

  lemma PushNodes(P: Plan, N: seq<Node>, st: seq<nat>, s: seq<bool>, r: nat, m: Node)
    requires P.l >= 1 && Chain(P, N, st) && Word(P, s, r) && Covered(P, N, st, Pos(s, P.g))
    requires m.p <= s && Top(N, st).p <= m.p && |m.p| == |Top(N, st).p| + P.l < |s|
    requires WidthOK(P, m) && NodesOK(P, N) && Rooted(P, N) && Distinct(N) && Housed(P, N, Pos(s, P.g))
    ensures NodesOK(P, N + [m]) && Rooted(P, N + [m]) && Distinct(N + [m]) && Housed(P, N + [m], Pos(s, P.g))
  {
    hide Pow2, First, Lsb, Pos, Covered, WidthOK, Under, Houses, Needed;
    assert Needed(P, m) by { PushNeeded(P, s, r, m); }
    PushRooted(P, N, st, s, m);
    PushHoused(P, N, m, Pos(s, P.g));
    forall T: nat | T < |N|
      ensures (N + [m])[T].p != m.p
    {
      PushParent(P, N, st, s, m, T);
    }
  }

  lemma PushNeeded(P: Plan, s: seq<bool>, r: nat, m: Node)
    requires Word(P, s, r) && m.p < s
    ensures Needed(P, m)
  {
  }

  lemma PushRooted(P: Plan, N: seq<Node>, st: seq<nat>, s: seq<bool>, m: Node)
    requires P.l >= 1 && Chain(P, N, st) && |s| <= P.g && Covered(P, N, st, Pos(s, P.g)) && Rooted(P, N)
    requires m.p <= s && Top(N, st).p <= m.p && |m.p| == |Top(N, st).p| + P.l
    ensures Rooted(P, N + [m])
  {
    hide Pow2, Pos, Covered;
    var N' := N + [m];
    forall T': nat | 0 < T' < |N'|
      ensures HasParent(P, N', T')
    {
      if T' == |N| {
        PushParent(P, N, st, s, m, st[|st| - 1]);
      } else {
        assert HasParent(P, N, T');
        var T: nat :| Under(P, N, T, T');
        assert Under(P, N', T, T');
      }
    }
  }

  lemma PushHoused(P: Plan, N: seq<Node>, m: Node, pos: nat)
    requires Housed(P, N, pos)
    ensures Housed(P, N + [m], pos)
  {
    hide Pos, First;
    forall s, r: nat | Word(P, s, r) && Pos(s, P.g) < pos
      ensures exists T: nat :: Houses(P, N + [m], T, s)
    {
      var T: nat :| Houses(P, N, T, s);
      assert Houses(P, N + [m], T, s);
    }
  }

  lemma PushCovered(P: Plan, N: seq<Node>, st: seq<nat>, s: seq<bool>, n: Node)
    requires |s| <= P.g && |n.p| <= P.g && Covered(P, N, st, Pos(s, P.g))
    ensures Covered(P, N + [n], st + [|N|], Pos(s, P.g))
  {
    hide Pos, Pow2;
    forall T | 0 <= T < |N| + 1
      ensures EndPos(P, (N + [n])[T].p) <= Pos(s, P.g) || T in st + [|N|]
    {
      if T == |N| {
        assert (st + [|N|])[|st|] == T;
      }
    }
  }

  // ---- Filling: lines 278-281 ---------------------------------------------

  /** The table with `r` in every slot whose low bits are `low`. */
  ghost predicate FilledWith(m: seq<Huft>, m': seq<Huft>, step: nat, low: nat, r: Huft)
    requires step > 0
  {
    && |m'| == |m|
    && forall j {:trigger m'[j]} :: 0 <= j < |m| ==> m'[j] == if Congruent(j, step, low) then r else m[j]
  }

  /** Word `s` has been stored in all its slots of the table on top. */
  ghost predicate Filled(P: Plan, F: Forest, st: seq<nat>, s: seq<bool>, r: nat, F': Forest)
    requires ValidPlan(P) && Shape(P, F) && Chain(P, F.node, st) && Top(F.node, st).p <= s && Word(P, s, r)
    requires Offset(P.c, |s|) + r < |P.ent|
  {
    var T0, w := st[|st| - 1], |Top(F.node, st).p|;
    && F'.tabs == F.tabs && F'.node == F.node && |F'.mem| == |F.mem| == |F'.hits|
    && (forall T :: 0 <= T < |F.mem| && T != T0 ==> F'.mem[T] == F.mem[T] && F'.hits[T] == F.hits[T])
    && FilledWith(F.mem[T0], F'.mem[T0], Pow2(|s| - w), Lsb(s[w..]),
                  WithBits(P.ent[Offset(P.c, |s|) + r], |s| - w))
    && HitOnce(F.hits[T0], F'.hits[T0], |F.mem[T0]|, Pow2(|s| - w), Lsb(s[w..]))
  }

  /** Every slot whose low bits are `low` has been stored once more. */
  ghost predicate HitOnce(m: multiset<nat>, m': multiset<nat>, size: nat, step: nat, low: nat)
    requires step > 0
  {
    forall t: nat :: m'[t] == m[t] + if t < size && Congruent(t, step, low) then 1 else 0
  }

  /** A word that fills a slot at all does so in the table on top. */
  lemma FillsTop(P: Plan, N: seq<Node>, st: seq<nat>, s: seq<bool>, r: nat, T: nat, t: nat)
    requires P.l >= 1 && Chain(P, N, st) && Word(P, s, r) && Covered(P, N, st, Pos(s, P.g)) && T < |N|
    requires Top(N, st).p <= s && |Top(N, st).p| < |s| <= |Top(N, st).p| + P.l
    ensures Fills(P, N[T], t, s, r) <==>
      T == st[|st| - 1] && Congruent(t, Pow2(|s| - |Top(N, st).p|), Lsb(s[|Top(N, st).p|..]))
  {
    hide Pow2, First, Lsb, Pos, Covered, Congruent;
    if N[T].p <= s {
      StackOnly(P, N, st, s, T);
    }
  }

  /** The slots of the word to come are not claimed yet. */
  lemma FillClear(P: Plan, N: seq<Node>, st: seq<nat>, s: seq<bool>, r: nat, T: nat, t: nat)
    requires ValidPlan(P) && Chain(P, N, st) && T == st[|st| - 1] && Fills(P, N[T], t, s, r)
    requires Covered(P, N, st, Pos(s, P.g))
    ensures !Claimed(P, N, T, t, Pos(s, P.g))
  {
    hide Pow2, First, Lsb, Pos, Covered, Fills, Word, ValidPlan;
    PlanWidth(P);
    FillsWord(P, N[T], t, s, r);
    forall s', r': nat | Fills(P, N[T], t, s', r')
      ensures s' == s
    {
      FillsOnce(P, N[T], t, s, r, s', r');
    }
    forall T': nat
      ensures !LinkFrom(P, N, T, t, T')
    {
      if LinkFrom(P, N, T, t, T') {
        FillsLink(P, N, T, t, T', s, r);
        NotBelow(P, N, st, s, T');
      }
    }
  }

  lemma PlanWidth(P: Plan)
    requires ValidPlan(P)
    ensures P.l >= 1
  {
  }

  lemma FillsWord(P: Plan, n: Node, t: nat, s: seq<bool>, r: nat)
    requires Fills(P, n, t, s, r)
    ensures Word(P, s, r) && |s| <= P.g
  {
  }

  /** After a word, it is the only one that fills more slots than before. */
  lemma FillAdds(P: Plan, n: Node, t: nat, s: seq<bool>, r: nat)
    requires ValidPlan(P) && Word(P, s, r)
    ensures forall s', r': nat :: Fills(P, n, t, s', r') && Pos(s', P.g) < EndPos(P, s) ==>
              Pos(s', P.g) < Pos(s, P.g) || (s' == s && r' == r)
    ensures Pos(s, P.g) < EndPos(P, s)
  {
    hide Pow2, First, Lsb, Pos, Congruent, ValidPlan;
    forall s', r': nat | Fills(P, n, t, s', r') && Pos(s, P.g) <= Pos(s', P.g) < EndPos(P, s)
      ensures s' == s && r' == r
    {
      WordBetween(P, s, r, s', r');
    }
  }

  /** A slot of the word: stored once, with its entry. */
  lemma FillHere(P: Plan, F: Forest, F': Forest, s: seq<bool>, r: nat, T: nat, t: nat)
    requires ValidPlan(P) && Shape(P, F) && Shape(P, F') && F'.node == F.node && F'.tabs == F.tabs
    requires T < |F.node| && t < |F.mem[T]| == |F'.mem[T]| && Fills(P, F.node[T], t, s, r)
    requires KeptAt(P, F, Pos(s, P.g), T, t) && !Claimed(P, F.node, T, t, Pos(s, P.g))
    requires F'.mem[T][t] == EntryOf(P, |s|, r, |s| - |F.node[T].p|) && F'.hits[T][t] == F.hits[T][t] + 1
    ensures |s| <= P.g && KeptAt(P, F', EndPos(P, s), T, t)
  {
    hide Pow2, First, Lsb, Pos, Fills, Word, ValidPlan, NodeOK, EntryOf;
    FillsWord(P, F.node[T], t, s, r);
    FillAdds(P, F.node[T], t, s, r);
  }

  /** Any other slot keeps what it had. */
  lemma FillElsewhere(P: Plan, F: Forest, F': Forest, s: seq<bool>, r: nat, T: nat, t: nat)
    requires ValidPlan(P) && Shape(P, F) && Shape(P, F') && F'.node == F.node && F'.tabs == F.tabs && Word(P, s, r)
    requires T < |F.node| && t < |F.mem[T]| == |F'.mem[T]| && KeptAt(P, F, Pos(s, P.g), T, t)
    requires !Fills(P, F.node[T], t, s, r)
    requires F'.mem[T][t] == F.mem[T][t] && F'.hits[T][t] == F.hits[T][t]
    ensures |s| <= P.g && KeptAt(P, F', EndPos(P, s), T, t)
  {
    hide Pow2, First, Lsb, Pos, Fills, Word, ValidPlan, NodeOK, EntryOf;
    WordLength(P, s, r);
    FillAdds(P, F.node[T], t, s, r);
  }

  lemma FilledParts(P: Plan, F: Forest, st: seq<nat>, s: seq<bool>, r: nat, F': Forest, T: nat, t: nat)
    requires ValidPlan(P) && Shape(P, F) && Chain(P, F.node, st) && Top(F.node, st).p <= s && Word(P, s, r)
    requires Offset(P.c, |s|) + r < |P.ent| && Filled(P, F, st, s, r, F')
    requires T < |F.node| && t < |F.mem[T]|
    ensures T < |F'.mem| == |F'.hits| && t < |F'.mem[T]| == |F.mem[T]|
    ensures var w := |Top(F.node, st).p|;
      if T == st[|st| - 1] && Congruent(t, Pow2(|s| - w), Lsb(s[w..]))
      then F'.mem[T][t] == EntryOf(P, |s|, r, |s| - w) && F'.hits[T][t] == F.hits[T][t] + 1
      else F'.mem[T][t] == F.mem[T][t] && F'.hits[T][t] == F.hits[T][t]
  {
    hide Pow2, First, Lsb, Pos, Offset, NodeOK, ValidPlan, Congruent;
    var T0 := st[|st| - 1];
    assert |s| <= |P.c|;
    if T == T0 {
      var was, hit := F.mem[T0][t], F.hits[T0][t];
    }
  }

  lemma FillCore(P: Plan, F: Forest, st: seq<nat>, s: seq<bool>, r: nat, F': Forest)
    requires ValidPlan(P) && Shape(P, F) && Chain(P, F.node, st) && OnPath(P, F.node, st, s) && Word(P, s, r)
    requires Offset(P.c, |s|) + r < |P.ent| && Filled(P, F, st, s, r, F')
    ensures Shape(P, F') && Chain(P, F'.node, st) && OnPath(P, F'.node, st, s)
    ensures F'.node == F.node && F'.tabs == F.tabs
    ensures |F'.mem| == |F.mem| && forall T :: 0 <= T < |F.mem| ==> |F'.mem[T]| == |F.mem[T]|
  {
    hide Pos, Lsb, Pow2, First, Offset;
    forall h | 0 <= h < |st| - 1
      ensures ChainAt(P, F'.node, st, h)
    {
      assert ChainAt(P, F.node, st, h);
    }
  }

  lemma FillKeptAt(P: Plan, F: Forest, st: seq<nat>, s: seq<bool>, r: nat, F': Forest, T: nat, t: nat)
    requires ValidPlan(P) && Shape(P, F) && Chain(P, F.node, st) && OnPath(P, F.node, st, s) && Word(P, s, r)
    requires |s| <= |Top(F.node, st).p| + P.l
    requires Offset(P.c, |s|) + r < |P.ent| && Filled(P, F, st, s, r, F') && Shape(P, F')
    requires F'.node == F.node && F'.tabs == F.tabs
    requires Covered(P, F.node, st, Pos(s, P.g)) && Kept(P, F, Pos(s, P.g))
    requires T < |F'.node| && t < |F.mem[T]| == |F'.mem[T]|
    ensures KeptAt(P, F', EndPos(P, s), T, t)
  {
    hide Pos, Lsb, Pow2, First, Offset, Fills, Filled, Covered, Word, ValidPlan, NodeOK, Claimed, EntryOf, Congruent;
    PlanWidth(P);
    FilledParts(P, F, st, s, r, F', T, t);
    FillsTop(P, F.node, st, s, r, T, t);
    assert KeptAt(P, F, Pos(s, P.g), T, t);
    hide KeptAt;
    if Fills(P, F.node[T], t, s, r) {
      FillClear(P, F.node, st, s, r, T, t);
      FillHere(P, F, F', s, r, T, t);
    } else {
      FillElsewhere(P, F, F', s, r, T, t);
    }
  }

  lemma FillHoused(P: Plan, N: seq<Node>, st: seq<nat>, s: seq<bool>, r: nat)
    requires ValidPlan(P) && Chain(P, N, st) && Word(P, s, r) && Housed(P, N, Pos(s, P.g))
    requires Top(N, st).p <= s && |Top(N, st).p| < |s| <= |Top(N, st).p| + P.l
    ensures Housed(P, N, EndPos(P, s))
  {
    hide Pos, Pow2, First, ValidPlan;
    assert Houses(P, N, st[|st| - 1], s);
    forall s', r': nat | Word(P, s', r') && Pos(s', P.g) < EndPos(P, s)
      ensures exists T: nat :: Houses(P, N, T, s')
    {
      if Pos(s', P.g) >= Pos(s, P.g) {
        WordBetween(P, s, r, s', r');
      }
    }
  }

  lemma FillSettled(P: Plan, F: Forest, st: seq<nat>, s: seq<bool>, r: nat, F': Forest)
    requires ValidPlan(P) && Shape(P, F) && Chain(P, F.node, st) && OnPath(P, F.node, st, s) && Word(P, s, r)
    requires |s| <= |Top(F.node, st).p| + P.l
    requires Offset(P.c, |s|) + r < |P.ent| && Filled(P, F, st, s, r, F')
    requires Covered(P, F.node, st, Pos(s, P.g)) && Settled(P, F, Pos(s, P.g))
    ensures Shape(P, F') && Settled(P, F', EndPos(P, s)) && Covered(P, F'.node, st, EndPos(P, s))
  {
    hide Pos, Lsb, Pow2, First, Offset, Filled, KeptAt, Word, ValidPlan, NodeOK, NodesOK, Rooted, Distinct, Housed,
        Full;
    FillCore(P, F, st, s, r, F');
    forall T, t | 0 <= T < |F'.node| && 0 <= t < |F'.mem[T]|
      ensures KeptAt(P, F', EndPos(P, s), T, t)
    {
      FillKeptAt(P, F, st, s, r, F', T, t);
    }
    FillHoused(P, F.node, st, s, r);
    CoveredLater(P, F.node, st, Pos(s, P.g), EndPos(P, s));
  }

  lemma CoveredLater(P: Plan, N: seq<Node>, st: seq<nat>, pos: nat, pos': nat)
    requires Covered(P, N, st, pos) && pos <= pos'
    ensures Covered(P, N, st, pos')
  {
  }

  // ---- Moving on: lines 283-297 -------------------------------------------

  /** Backing up past one table: it is finished, and the next word starts where its sibling starts. */
  lemma PopOne(P: Plan, p: seq<bool>, s: seq<bool>, s': seq<bool>)
    requires p <= s && |p| <= |s'| <= P.g && |s| <= P.g
    requires Pos(s', P.g) == EndPos(P, s) && p != s'[..|p|]
    ensures EndPos(P, p) <= Pos(s', P.g)
    ensures Pos(s'[..|p|], P.g) == Pos(s', P.g)
  {
    hide Pos, Pow2;
    PrefixInside(p, s, P.g);
    NotPrefixOutside(p, s', P.g);
    var S := s'[..|p|];
    PrefixInside(S, s', P.g);
    NotPrefixOutside(S, s, P.g);
  }

  lemma PopCovered(P: Plan, N: seq<Node>, st: seq<nat>, pos: nat)
    requires |st| >= 1 && Covered(P, N, st, pos)
    requires st[|st| - 1] < |N| && EndPos(P, N[st[|st| - 1]].p) <= pos
    ensures Covered(P, N, st[..|st| - 1], pos)
  {
    hide Pos, Pow2;
    forall T | 0 <= T < |N|
      ensures EndPos(P, N[T].p) <= pos || T in st[..|st| - 1]
    {
      if T in st && T != st[|st| - 1] {
        var h :| 0 <= h < |st| && st[h] == T;
        assert st[..|st| - 1][h] == T;
      }
    }
  }

  /** The next length: code words grow by a 0 without moving. */
  lemma LengthenOnPath(P: Plan, N: seq<Node>, st: seq<nat>, s: seq<bool>)
    requires Chain(P, N, st) && OnPath(P, N, st, s) && |s| < P.g
    ensures OnPath(P, N, st, s + Zeros(1))
    ensures Pos(s + Zeros(1), P.g) == Pos(s, P.g) && Lsb(s + Zeros(1)) == Lsb(s)
  {
    PosPadded(s, 1, P.g);
    LsbPadded(s, 1);
    var w := |Top(N, st).p|;
    if w + P.l < |s| {
      assert (s + Zeros(1))[..w + P.l] == s[..w + P.l];
    } else if w + P.l == |s| {
      assert (s + Zeros(1))[..w + P.l] == s;
    }
  }
}
