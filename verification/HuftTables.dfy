// What a set of linked lookup tables means, and the invariant under which
// huft_build (boot/zBoot/inflate.c) grows such a set.
//
// The proof follows the code words in increasing order.  `pos` is the point of
// the code space reached so far, at the scale of `g` bits: a table slot has been
// stored exactly once if a code word before `pos` or a link belongs there, and
// otherwise never, and every table that still reaches past `pos` is on the
// table stack.
module HuftTables {
  import opened Bits
  import opened Canonical

  /** A table entry; `Undef` is memory that was never written. */
  datatype Huft = Undef | Huft(e: nat, b: nat, n: nat, t: array?<Huft>)

  /** An entry that ends a code, given the bits left in this table. */
  function WithBits(r: Huft, b: nat): Huft
  {
    match r
    case Undef => Undef
    case Huft(e, _, n, t) => Huft(e, b, n, t)
  }

  ghost predicate IsLeaf(r: Huft)
  {
    r.Undef? || r.e <= 16 || r.e == 99
  }

  function LinkTo(bits: nat, skip: nat, t: array<Huft>): Huft
  {
    Huft(16 + bits, skip, 0, t)
  }

  /** Codes of length 1..k-1 come before those of length k. */
  function Offset(c: seq<nat>, k: nat): nat
    requires k <= |c|
  {
    if k <= 1 then 0 else Offset(c, k - 1) + c[k - 1]
  }

  lemma {:induction false} OffsetGrows(c: seq<nat>, k: nat, k': nat)
    requires 1 <= k <= k' < |c|
    ensures Offset(c, k) + c[k] <= Offset(c, k') + c[k']
    ensures k < k' ==> Offset(c, k) + c[k] <= Offset(c, k')
    decreases k' - k
  {
    if k < k' {
      OffsetGrows(c, k, k' - 1);
    }
  }

  lemma {:induction false} NothingBefore(c: seq<nat>, k: nat)
    requires k <= |c| && forall j :: 1 <= j < k ==> c[j] == 0
    ensures First(c, k) == 0 && Offset(c, k) == 0
  {
    if k > 1 {
      NothingBefore(c, k - 1);
    }
  }

  /** A full code and the entry to be stored for each of its code words. */
  datatype Plan = Plan(c: seq<nat>, g: nat, l: nat, ent: seq<Huft>)

  ghost predicate ValidPlan(P: Plan)
  {
    && |P.c| == BMAX + 1 && P.g <= BMAX && Full(P.c, P.g)
    && 1 <= P.l <= P.g
    && (forall k :: P.g < k < |P.c| ==> P.c[k] == 0)
    && |P.ent| == Offset(P.c, P.g) + P.c[P.g]
    && forall i :: 0 <= i < |P.ent| ==> IsLeaf(P.ent[i])
  }

  /** A table: the bits that lead to it, and how many bits index it. */
  datatype Node = Node(p: seq<bool>, nb: nat)

  /** All tables made so far, oldest first, with their contents and how often each slot was stored. */
  datatype Forest = Forest(tabs: seq<array<Huft>>, node: seq<Node>, mem: seq<seq<Huft>>, hits: seq<multiset<nat>>)

  const NO_FOREST: Forest := Forest([], [], [], [])

  ghost function Tables(F: Forest): set<object>
  {
    set T | 0 <= T < |F.tabs| :: F.tabs[T]
  }

  ghost predicate Synced(F: Forest)
    reads Tables(F)
  {
    && |F.tabs| == |F.mem|
    && (forall T :: 0 <= T < |F.tabs| ==> F.tabs[T][..] == F.mem[T])
    && (forall T, T' :: 0 <= T < T' < |F.tabs| ==> F.tabs[T] != F.tabs[T'])
  }

  /** The end of the interval of strings that extend `p`. */
  ghost function EndPos(P: Plan, p: seq<bool>): nat
    requires |p| <= P.g
  {
    Pos(p, P.g) + Pow2(P.g - |p|)
  }

  /** The codes of at most |p| + nb bits use up everything below `p`. */
  ghost predicate Closed(P: Plan, p: seq<bool>, nb: nat)
  {
    && 1 <= |p| + nb <= P.g < |P.c|
    && EndPos(P, p) <= End(P.c, |p| + nb, P.g)
  }

  ghost predicate NodeOK(P: Plan, n: Node, size: nat)
  {
    && 1 <= n.nb && |n.p| < P.g
    && Pow2(n.nb) <= size
    && (n.nb >= P.l || Closed(P, n.p, n.nb))
  }

  ghost predicate Shape(P: Plan, F: Forest)
  {
    && |F.tabs| == |F.node| == |F.mem| == |F.hits|
    && forall T :: 0 <= T < |F.node| ==> NodeOK(P, F.node[T], |F.mem[T]|)
  }

  /** `s` is the code word number `r` of length |s|. */
  ghost predicate Word(P: Plan, s: seq<bool>, r: nat)
  {
    1 <= |s| <= P.g < |P.c| && r < P.c[|s|] && Msb(s) == First(P.c, |s|) + r
  }

  // ---- The table stack ----------------------------------------------------

  /** The stacked tables lie on one path, one every `l` bits, from the root. */
  ghost predicate Chain(P: Plan, N: seq<Node>, st: seq<nat>)
  {
    && |st| >= 1
    && (forall h :: 0 <= h < |st| ==> st[h] < |N|)
    && |N[st[0]].p| == 0
    && (forall h {:trigger ChainAt(P, N, st, h)} :: 0 <= h < |st| - 1 ==> ChainAt(P, N, st, h))
  }

  ghost predicate ChainAt(P: Plan, N: seq<Node>, st: seq<nat>, h: nat)
    requires h + 1 < |st| && st[h] < |N| && st[h + 1] < |N|
  {
    && |N[st[h + 1]].p| == |N[st[h]].p| + P.l
    && N[st[h]].p <= N[st[h + 1]].p
  }

  ghost function Top(N: seq<Node>, st: seq<nat>): Node
    requires |st| >= 1 && st[|st| - 1] < |N|
  {
    N[st[|st| - 1]]
  }

  /** The stack leads towards the code word `s`, and goes as deep as the words before `s` went. */
  ghost predicate OnPath(P: Plan, N: seq<Node>, st: seq<nat>, s: seq<bool>)
    requires Chain(P, N, st)
  {
    var w := |Top(N, st).p|;
    && Top(N, st).p <= s && w < |s| <= P.g
    && (w + P.l < |s| ==> Pos(s[..w + P.l], P.g) == Pos(s, P.g))
  }

  lemma {:induction false} ChainPrefix(P: Plan, N: seq<Node>, st: seq<nat>, h: nat, h': nat)
    requires Chain(P, N, st) && h <= h' < |st|
    ensures N[st[h]].p <= N[st[h']].p
    ensures |N[st[h]].p| + (h' - h) <= |N[st[h']].p| || P.l == 0
    decreases h' - h
  {
    if h < h' {
      ChainPrefix(P, N, st, h, h' - 1);
      assert ChainAt(P, N, st, h' - 1);
    }
  }

  lemma {:induction false} ChainMultiple(P: Plan, N: seq<Node>, st: seq<nat>, h: nat)
    requires Chain(P, N, st) && h < |st| && P.l >= 1
    ensures |N[st[h]].p| == h * P.l
    ensures |N[st[h]].p| % P.l == 0
  {
    if h > 0 {
      ChainMultiple(P, N, st, h - 1);
      assert ChainAt(P, N, st, h - 1);
    }
    DivModUnique(h * P.l, P.l, h, 0);
  }

  lemma ChainTake(P: Plan, N: seq<Node>, st: seq<nat>, n: nat)
    requires Chain(P, N, st) && 1 <= n <= |st|
    ensures Chain(P, N, st[..n])
  {
    forall h | 0 <= h < n - 1
      ensures ChainAt(P, N, st[..n], h)
    {
      assert ChainAt(P, N, st, h);
    }
  }

  // ---- Slots --------------------------------------------------------------

  /** The bits that lead to slot `j` of table `n`. */
  ghost function SlotString(n: Node, j: nat): seq<bool>
  {
    n.p + ToBits(j, n.nb)
  }

  ghost predicate CodeSlot(P: Plan, n: Node, S: seq<bool>, slot: Huft, k: nat, r: nat)
  {
    && |n.p| < k <= P.g < |P.c| && CodeAt(P.c, k, r, S)
    && Offset(P.c, k) + r < |P.ent|
    && slot == WithBits(P.ent[Offset(P.c, k) + r], k - |n.p|)
  }

  ghost predicate LinkSlot(F: Forest, T: nat, S: seq<bool>, slot: Huft, T': nat)
    requires T < |F.node| == |F.tabs|
  {
    T < T' < |F.node| && F.node[T'].p == S &&
    slot == LinkTo(F.node[T'].nb, F.node[T].nb, F.tabs[T'])
  }

  /** The slot reached by `S` holds the code that begins `S`, or leads on to the table for `S`. */
  ghost predicate SlotGood(P: Plan, F: Forest, T: nat, S: seq<bool>, slot: Huft)
    requires T < |F.node| == |F.tabs|
  {
    || (exists k: nat, r: nat :: CodeSlot(P, F.node[T], S, slot, k, r))
    || (exists T': nat :: LinkSlot(F, T, S, slot, T'))
  }

  ghost predicate Thin(P: Plan, n: Node) { n.nb <= P.l && |n.p| + n.nb <= P.g }

  /** Every index of every table fits in `l` bits and in the longest code. */
  ghost predicate Narrow(P: Plan, N: seq<Node>)
  {
    forall T :: 0 <= T < |N| ==> Thin(P, N[T])
  }

  ghost predicate DoneAt(P: Plan, F: Forest, pos: nat, T: nat, j: nat)
    requires Shape(P, F) && Narrow(P, F.node) && T < |F.node|
    requires j < Pow2(F.node[T].nb)
  {
    Pos(SlotString(F.node[T], j), P.g) < pos ==>
      SlotGood(P, F, T, SlotString(F.node[T], j), F.mem[T][j])
  }

  ghost predicate Done(P: Plan, F: Forest, pos: nat)
    requires Shape(P, F) && Narrow(P, F.node)
  {
    forall T, j {:trigger DoneAt(P, F, pos, T, j)} ::
      0 <= T < |F.node| && 0 <= j < Pow2(F.node[T].nb) ==> DoneAt(P, F, pos, T, j)
  }

  /** Tables off the stack are finished. */
  ghost predicate Covered(P: Plan, N: seq<Node>, st: seq<nat>, pos: nat)
  {
    forall T :: 0 <= T < |N| ==> |N[T].p| <= P.g && (EndPos(P, N[T].p) <= pos || T in st)
  }

  // ---- What is stored where -----------------------------------------------

  ghost predicate Congruent(t: nat, step: nat, low: nat)
    requires step > 0
  {
    t % step == low
  }

  /** The code word `s`, number `r` of its length, belongs in slot `t` of table `n`: lines 278-281. */
  ghost predicate Fills(P: Plan, n: Node, t: nat, s: seq<bool>, r: nat)
  {
    && Word(P, s, r) && n.p <= s && |n.p| < |s| <= |n.p| + P.l
    && Congruent(t, Pow2(|s| - |n.p|), Lsb(s[|n.p|..]))
  }

  /** Table `T'` is one level below table `T`. */
  ghost predicate Under(P: Plan, N: seq<Node>, T: nat, T': nat)
  {
    T < T' < |N| && N[T].p <= N[T'].p && |N[T'].p| == |N[T].p| + P.l
  }

  /** Slot `t` of table `T` is the one for the link to table `T'`: lines 249-256. */
  ghost predicate LinkFrom(P: Plan, N: seq<Node>, T: nat, t: nat, T': nat)
  {
    Under(P, N, T, T') && t == Lsb(N[T'].p[|N[T].p|..])
  }

  ghost predicate FilledBy(P: Plan, n: Node, t: nat, pos: nat)
  {
    exists s, r: nat :: Fills(P, n, t, s, r) && Pos(s, P.g) < pos
  }

  /** A code word before `pos` or a link belongs in slot `t` of table `T`. */
  ghost predicate Claimed(P: Plan, N: seq<Node>, T: nat, t: nat, pos: nat)
    requires T < |N|
  {
    FilledBy(P, N[T], t, pos) || exists T': nat :: LinkFrom(P, N, T, t, T')
  }

  /** The entry of the code word number `r` of length `k`, with `b` bits left. */
  ghost function EntryOf(P: Plan, k: nat, r: nat, b: nat): Huft
  {
    if k <= |P.c| && Offset(P.c, k) + r < |P.ent| then WithBits(P.ent[Offset(P.c, k) + r], b) else Undef
  }

  /** The slot was stored once if something belongs there, else never, and holds what belongs there. */
  ghost predicate KeptAt(P: Plan, F: Forest, pos: nat, T: nat, t: nat)
    requires Shape(P, F) && T < |F.node| && t < |F.mem[T]|
  {
    var n, slot := F.node[T], F.mem[T][t];
    && F.hits[T][t] == (if Claimed(P, F.node, T, t, pos) then 1 else 0)
    && (!Claimed(P, F.node, T, t, pos) ==> slot == Undef)
    && (forall s, r: nat :: Fills(P, n, t, s, r) && Pos(s, P.g) < pos ==> slot == EntryOf(P, |s|, r, |s| - |n.p|))
    && (forall T': nat :: LinkFrom(P, F.node, T, t, T') ==> slot == LinkTo(F.node[T'].nb, P.l, F.tabs[T']))
  }

  ghost predicate Kept(P: Plan, F: Forest, pos: nat)
    requires Shape(P, F)
  {
    forall T, t {:trigger KeptAt(P, F, pos, T, t)} ::
      0 <= T < |F.node| && 0 <= t < |F.mem[T]| ==> KeptAt(P, F, pos, T, t)
  }

  // ---- The tables among each other ----------------------------------------

  /** The codes of `l` more bits leave room below prefix `p`. */
  ghost predicate Roomy(P: Plan, p: seq<bool>)
  {
    |p| + P.l <= P.g < |P.c| && 1 <= P.l && End(P.c, |p| + P.l, P.g) < EndPos(P, p)
  }

  /** An index has at most `l` bits, or more where the codes of `l` bits leave room. */
  ghost predicate WidthOK(P: Plan, n: Node)
  {
    Thin(P, n) || (P.l < n.nb && |n.p| + n.nb <= P.g + 1 && Roomy(P, n.p))
  }

  /** The table is on the way to some code word. */
  ghost predicate Needed(P: Plan, n: Node)
  {
    exists s, r: nat :: Word(P, s, r) && n.p < s
  }

  ghost predicate NodesOK(P: Plan, N: seq<Node>)
  {
    forall T :: 0 <= T < |N| ==> WidthOK(P, N[T]) && Needed(P, N[T])
  }

  /** Every table but the root is one level below another. */
  ghost predicate Rooted(P: Plan, N: seq<Node>)
  {
    && (|N| > 0 ==> N[0].p == [])
    && forall T' :: 0 < T' < |N| ==> HasParent(P, N, T')
  }

  ghost predicate HasParent(P: Plan, N: seq<Node>, T': nat)
  {
    exists T: nat :: Under(P, N, T, T')
  }

  ghost predicate Distinct(N: seq<Node>)
  {
    forall T, T' :: 0 <= T < T' < |N| ==> N[T].p != N[T'].p
  }

  /** Table `T` is the one to hold the code word `s`. */
  ghost predicate Houses(P: Plan, N: seq<Node>, T: nat, s: seq<bool>)
  {
    T < |N| && N[T].p <= s && |N[T].p| < |s| <= |N[T].p| + P.l
  }

  /** Every code word before `pos` has its table. */
  ghost predicate Housed(P: Plan, N: seq<Node>, pos: nat)
  {
    forall s, r: nat {:trigger Word(P, s, r)} :: Word(P, s, r) && Pos(s, P.g) < pos ==>
        exists T: nat :: Houses(P, N, T, s)
  }

  /** What the main loop keeps: see above. */
  ghost predicate Settled(P: Plan, F: Forest, pos: nat)
    requires Shape(P, F)
  {
    && Kept(P, F, pos) && NodesOK(P, F.node)
    && Rooted(P, F.node) && Distinct(F.node) && Housed(P, F.node, pos)
  }

  /** The same, with every table that reaches past `pos` on the stack. */
  ghost predicate Sane(P: Plan, F: Forest, st: seq<nat>, pos: nat)
    requires Shape(P, F)
  {
    Covered(P, F.node, st, pos) && Settled(P, F, pos)
  }

  /** A finished table's slot for the next bits. */
  lemma SlotAt(P: Plan, F: Forest, T: nat, R: seq<bool>)
    requires ValidPlan(P) && Shape(P, F) && Narrow(P, F.node) && Done(P, F, Pow2(P.g))
    requires T < |F.node| && F.node[T].p <= R && |F.node[T].p| + F.node[T].nb <= |R|
    ensures var w, nb := |F.node[T].p|, F.node[T].nb;
      Lsb(R[w..w + nb]) < |F.mem[T]| &&
      SlotGood(P, F, T, R[..w + nb], F.mem[T][Lsb(R[w..w + nb])])
  {
    hide Pos, Lsb, ToBits, Pow2, First, Offset;
    var n := F.node[T];
    var S, t := R[..|n.p| + n.nb], R[|n.p|..|n.p| + n.nb];
    assert NodeOK(P, n, |F.mem[T]|);
    LsbBound(t);
    ToBitsOfLsb(t);
    assert SlotString(n, Lsb(t)) == S;
    PosBound(S, P.g);
    assert DoneAt(P, F, Pow2(P.g), T, Lsb(t));
  }
}
