// huft_build as a whole (boot/zBoot/inflate.c:99-303), and what its tables mean:
// following them through a bit stream is canonical Huffman decoding.
module Huffman {
  import opened Bits
  import opened Canonical
  import opened HuftTables
  import opened HuftMeaning
  import opened HuftLoop
  import opened HuftCounts

  /** The lists of base values and extra bits cover every symbol that is not simple. */
  ghost predicate ListsCover(n: nat, s0: nat, d: seq<nat>, e: seq<nat>)
  {
    && n <= s0 + |d| && n <= s0 + |e|
    && forall i :: 0 <= i < |e| ==> e[i] <= 16 || e[i] == 99
  }

  /** What a table stores for symbol `sym`. */
  function SymbolEntry(sym: nat, s0: nat, d: seq<nat>, e: seq<nat>): Huft
    requires sym < s0 || (sym - s0 < |d| && sym - s0 < |e|)
  {
    if sym < s0 then Huft(if sym < 256 then 16 else 15, 0, sym, null)
    else Huft(e[sym - s0], 0, d[sym - s0], null)
  }

  const BAD_CODE: Huft := Huft(99, 0, 0, null)

  function Longest(b: seq<nat>): nat { MaxLength(b, BMAX) }

  /** The filled-out code of `b`, with the entry of every code word. */
  ghost predicate PlanFor(P: Plan, b: seq<nat>, s0: nat, d: seq<nat>, e: seq<nat>)
    requires ValidLengths(b) && ListsCover(|b|, s0, d, e)
  {
    && ValidPlan(P) && P.g == Longest(b)
    && (forall k :: 1 <= k < P.g ==> P.c[k] == CountOf(b, k))
    && P.c[P.g] >= CountOf(b, P.g)
    && (forall k, r :: 1 <= k <= P.g && 0 <= r < CountOf(b, k) ==> CodeEntry(P, b, s0, d, e, k, r))
    && forall r :: CountOf(b, P.g) <= r < P.c[P.g] ==> SpareEntry(P, b, r)
  }

  ghost predicate CodeEntry(P: Plan, b: seq<nat>, s0: nat, d: seq<nat>, e: seq<nat>, k: nat, r: nat)
    requires ListsCover(|b|, s0, d, e) && k <= |P.c| && r < CountOf(b, k)
  {
    Offset(P.c, k) + r < |P.ent| && P.ent[Offset(P.c, k) + r] == SymbolEntry(Nth(b, k, r), s0, d, e)
  }

  /**
   * A code word beyond those of `b` is marked invalid, but only when the value
   * table has no room left: line 264 compares with the number of symbols, not
   * with the number of coded symbols.
   */
  ghost predicate SpareEntry(P: Plan, b: seq<nat>, r: nat)
    requires P.g <= |P.c|
  {
    Offset(P.c, P.g) + r < |P.ent| &&
    P.ent[Offset(P.c, P.g) + r] == if Offset(P.c, P.g) + r >= |b| then BAD_CODE else Undef
  }

  /** The tables that hang off `t`, whose root is indexed by `m` bits, hold the plan. */
  ghost predicate Tree(P: Plan, F: Forest, t: array?<Huft>, m: nat)
    reads Tables(F)
  {
    && ValidPlan(P) && P.l == m && Shape(P, F) && Synced(F)
    && |F.tabs| > 0 && F.tabs[0] == t && F.node[0] == Node([], m)
    && Narrow(P, F.node) && Done(P, F, Pow2(P.g))
  }

  // ---- When every index stays within `l` bits ------------------------------

  /** Codes of at most 2l bits are always balanced. */
  lemma ShortIsBalanced(c: seq<nat>, g: nat, l: nat)
    requires Full(c, g) && 1 <= l && g <= 2 * l
    ensures Balanced(c, g, l)
  {
    hide First, Pow2;
    forall k, r, w, M | TooWide(c, g, l, k, r, w, M)
      ensures false
    {
      FullUsesUp(c, g, w, k, r, M);
    }
  }

  /** The number of codes of at least `k` bits. */
  function CodesFrom(c: seq<nat>, k: nat, g: nat): nat
    requires 1 <= k && g < |c|
    decreases g + 1 - k
  {
    if k > g then 0 else c[k] + CodesFrom(c, k + 1, g)
  }

  /** Codes of `k` bits or more cover no more of the space than that many codes of `k` bits. */
  lemma {:induction false} CodesCover(c: seq<nat>, k: nat, g: nat, j: nat)
    requires 1 <= j <= k <= g < |c|
    ensures End(c, g, g) <= Start(c, k, g) + CodesFrom(c, k, g) * Pow2(g - j)
    decreases g - k
  {
    hide First, Pow2;
    var n, p, q := c[k], Pow2(g - k), Pow2(g - j);
    Pow2Monotone(g - k, g - j);
    MulLe'(n, p, q);
    Distribute(First(c, k), n, p);
    if k < g {
      CodesCover(c, k + 1, g, j);
      StartAfterEnd(c, k, g);
      Distribute(n, CodesFrom(c, k + 1, g), q);
    }
  }

  lemma MulLe'(n: nat, p: nat, q: nat)
    requires p <= q
    ensures n * p <= n * q
  {
    MulLe(p, q, n);
    assert n * p == p * n && n * q == q * n;
  }

  lemma {:induction false} OffsetIsCodes(c: seq<nat>, k: nat, g: nat)
    requires 1 <= k <= g < |c|
    ensures Offset(c, k) + CodesFrom(c, k, g) == Offset(c, g) + c[g]
    decreases g - k
  {
    if k < g {
      OffsetIsCodes(c, k + 1, g);
    }
  }

  /** Fewer than Pow2(l) codes are always balanced. */
  lemma FewIsBalanced(c: seq<nat>, g: nat, l: nat)
    requires Full(c, g) && 1 <= l && Offset(c, g) + c[g] < Pow2(l)
    ensures Balanced(c, g, l)
  {
    forall k, r, w, M | TooWide(c, g, l, k, r, w, M)
      ensures false
    {
      FewNotTooWide(c, g, l, k, r, w, M);
    }
  }

  lemma FewNotTooWide(c: seq<nat>, g: nat, l: nat, k: nat, r: nat, w: nat, M: nat)
    requires Full(c, g) && 1 <= l && Offset(c, g) + c[g] < Pow2(l)
    ensures !TooWide(c, g, l, k, r, w, M)
  {
    hide First, Pow2;
    if TooWide(c, g, l, k, r, w, M) {
      var n, u := CodesFrom(c, k, g), Pow2(g - w - l);
      // the prefix takes Pow2(l) times u of the space, the codes from length k on at most n times u
      CodesCover(c, k, g, w + l);
      OffsetIsCodes(c, k, g);
      Pow2Add(l, g - w - l);
      MulStep(u, n, Pow2(l));
      Commute(u, n, Pow2(l));
      assert n * u < Pow2(g - w);
      SpaceLeft(c, g, k, r, w, M);
    }
  }

  /** From an aligned code on, at least its whole prefix remains. */
  lemma SpaceLeft(c: seq<nat>, g: nat, k: nat, r: nat, w: nat, M: nat)
    requires Full(c, g) && 1 <= k <= g && w <= k && r < c[k] && First(c, k) + r == M * Pow2(k - w)
    ensures Start(c, k, g) + Pow2(g - w) <= End(c, g, g)
  {
    hide First, Pow2;
    var u := Pow2(g - w);
    PrefixExists(c, g, k, r, w, M);
    Pow2Add(w, g - w);
    MulLe(M + 1, Pow2(w), u);
    Distribute(M, 1, u);
    Pow2Add(k - w, g - k);
    ScaledLe(First(c, k), M, Pow2(k - w), Pow2(g - k));
    Pow2IsOne();
  }

  lemma ScaledLe(f: nat, m: nat, a: nat, u: nat)
    requires f <= m * a
    ensures f * u <= m * (a * u)
  {
    MulLe(f, m * a, u);
    assert (m * a) * u == m * (a * u);
  }

  lemma PrefixExists(c: seq<nat>, g: nat, k: nat, r: nat, w: nat, M: nat)
    requires Full(c, g) && 1 <= k <= g && w <= k && r < c[k] && First(c, k) + r == M * Pow2(k - w)
    ensures M < Pow2(w)
  {
    hide First, Pow2;
    FullBelow(c, k, g);
    Pow2Add(w, k - w);
    if M >= Pow2(w) {
      MulLe(Pow2(w), M, Pow2(k - w));
    }
  }

  // ---- The plan of a list of code lengths ----------------------------------

  ghost function PlanEntries(c: seq<nat>, g: nat, v: seq<Cell>, n: nat, s0: nat, d: seq<nat>, e: seq<nat>): seq<Huft>
    requires 1 <= g < |c| && n <= |v|
  {
    seq(Offset(c, g) + c[g], j requires 0 <= j => EntryFor(v, Min(j, n), n, s0, d, e))
  }

  lemma PlanEntriesPlanned(P: Plan, c: seq<nat>, g: nat, v: seq<Cell>, n: nat, s0: nat, d: seq<nat>, e: seq<nat>)
    requires 1 <= g < |c| && n <= |v| && P.ent == PlanEntries(c, g, v, n, s0, d, e)
    ensures Planned(P, v, n, s0, d, e) && NoLinks(P)
  {
  }

  lemma EntryIsLeaf(v: seq<Cell>, p: nat, n: nat, s0: nat, d: seq<nat>, e: seq<nat>)
    requires n <= |v| && ListsCover(n, s0, d, e)
    ensures IsLeaf(EntryFor(v, p, n, s0, d, e))
  {
  }

  /** The counts after filling out are those of `b`, but for the longest length. */
  ghost predicate FilledCounts(b: seq<nat>, c: seq<nat>, g: nat)
  {
    && |c| == BMAX + 1 && 1 <= g <= BMAX && g == Longest(b) && Full(c, g)
    && c[g] >= CountOf(b, g) && c == Counts(b)[g := c[g]]
  }

  lemma OffsetOf(b: seq<nat>, c: seq<nat>, g: nat, k: nat)
    requires FilledCounts(b, c, g) && 1 <= k <= g
    ensures Offset(c, k) == Offset(Counts(b), k)
  {
    OffsetAgrees(c, Counts(b), k);
  }

  /** The coded symbols fill the value table up to the codes of the longest length. */
  lemma CodedSymbols(b: seq<nat>, g: nat)
    requires ValidLengths(b) && 1 <= g == Longest(b)
    ensures Offset(Counts(b), g) + CountOf(b, g) == Offset(Counts(b), BMAX + 1)
    ensures Offset(Counts(b), BMAX + 1) + CountOf(b, 0) == |b|
  {
    CountsTotal(b);
    TailOffset(Counts(b), g + 1, BMAX + 1);
    OffsetStep(Counts(b), g);
  }

  lemma {:induction false} TailOffset(c: seq<nat>, k: nat, k': nat)
    requires 1 <= k <= k' <= |c| && forall j :: k <= j < k' ==> c[j] == 0
    ensures Offset(c, k') == Offset(c, k)
    decreases k'
  {
    if k < k' {
      TailOffset(c, k, k' - 1);
    }
  }

  lemma EntryIsSymbol(v: seq<Cell>, p: nat, n: nat, s0: nat, d: seq<nat>, e: seq<nat>, sym: nat)
    requires p < n <= |v| && v[p] == Sym(sym) && sym < n && ListsCover(n, s0, d, e)
    ensures sym < s0 || (sym - s0 < |d| && sym - s0 < |e|)
    ensures EntryFor(v, p, n, s0, d, e) == SymbolEntry(sym, s0, d, e)
  {
  }

  lemma CodeEntryHolds(P: Plan, b: seq<nat>, v: seq<Cell>, s0: nat, d: seq<nat>, e: seq<nat>, k: nat, r: nat)
    requires ValidLengths(b) && ListsCover(|b|, s0, d, e) && |b| <= N_MAX && Values(b, v)
    requires FilledCounts(b, P.c, P.g) && P.ent == PlanEntries(P.c, P.g, v, |b|, s0, d, e)
    requires 1 <= k <= P.g && r < CountOf(b, k)
    ensures CodeEntry(P, b, s0, d, e, k, r)
  {
    hide Offset, CountOf, Counts, Nth, SymbolEntry, EntryFor, ListsCover;
    var sym := Nth(b, k, r);
    OffsetOf(b, P.c, P.g, k);
    CountsAt(b, k);
    PlaceInRange(b, sym);
    OffsetGrows(P.c, k, P.g);
    assert b[sym] == k;
    EntryIsSymbol(v, Offset(P.c, k) + r, |b|, s0, d, e, sym);
  }

  lemma CountsAt(b: seq<nat>, k: nat)
    requires k <= BMAX
    ensures Counts(b)[k] == CountOf(b, k)
  {
  }

  lemma SpareEntryHolds(P: Plan, b: seq<nat>, v: seq<Cell>, s0: nat, d: seq<nat>, e: seq<nat>, r: nat)
    requires ValidLengths(b) && ListsCover(|b|, s0, d, e) && |b| <= N_MAX && Values(b, v)
    requires FilledCounts(b, P.c, P.g) && P.ent == PlanEntries(P.c, P.g, v, |b|, s0, d, e)
    requires CountOf(b, P.g) <= r < P.c[P.g]
    ensures SpareEntry(P, b, r)
  {
    hide Offset, CountOf, Counts;
    OffsetOf(b, P.c, P.g, P.g);
    CodedSymbols(b, P.g);
  }

  lemma PlanHolds(P: Plan, b: seq<nat>, v: seq<Cell>, s0: nat, d: seq<nat>, e: seq<nat>)
    requires ValidLengths(b) && ListsCover(|b|, s0, d, e) && |b| <= N_MAX && Values(b, v)
    requires FilledCounts(b, P.c, P.g) && P.ent == PlanEntries(P.c, P.g, v, |b|, s0, d, e)
    requires 1 <= P.l <= P.g
    ensures PlanFor(P, b, s0, d, e)
  {
    hide Offset, CountOf, EntryFor, Nth, SymbolEntry, First, Pow2;
    forall i | 0 <= i < |P.ent|
      ensures IsLeaf(P.ent[i])
    {
      EntryIsLeaf(v, Min(i, |b|), |b|, s0, d, e);
    }
    forall k, r | 1 <= k <= P.g && 0 <= r < CountOf(b, k)
      ensures CodeEntry(P, b, s0, d, e, k, r)
    {
      CodeEntryHolds(P, b, v, s0, d, e, k, r);
    }
    forall r | CountOf(b, P.g) <= r < P.c[P.g]
      ensures SpareEntry(P, b, r)
    {
      SpareEntryHolds(P, b, v, s0, d, e, r);
    }
  }

  /** Every spare code word is marked invalid exactly when every symbol has a code or no word is spare. */
  lemma SparesExact(P: Plan, b: seq<nat>, s0: nat, d: seq<nat>, e: seq<nat>)
    requires ValidLengths(b) && ListsCover(|b|, s0, d, e) && PlanFor(P, b, s0, d, e)
    ensures (forall r :: CountOf(b, P.g) <= r < P.c[P.g] ==> EntryOf(P, P.g, r, 0) == BAD_CODE) <==>
      CountOf(b, 0) == 0 || KraftSum(b) == Pow2(BMAX)
  {
    hide Offset, CountOf, First, Pow2, KraftSum;
    CodedSymbols(b, P.g);
    OffsetAgrees(P.c, Counts(b), P.g);
    FirstAgrees(P.c, Counts(b), P.g);
    KraftMeaning(b, P.g);
    CountsAt(b, P.g);
    forall r | CountOf(b, P.g) <= r < P.c[P.g]
      ensures EntryOf(P, P.g, r, 0) == if Offset(P.c, P.g) + r >= |b| then BAD_CODE else Undef
    {
      assert SpareEntry(P, b, r);
    }
    if CountOf(b, P.g) < P.c[P.g] && CountOf(b, 0) > 0 {
      assert EntryOf(P, P.g, CountOf(b, P.g), 0) == Undef;
    }
  }

  // ---- huft_build ----------------------------------------------------------

  ghost predicate HuftBuildArguments(b: seq<nat>, s0: nat, d: seq<nat>, e: seq<nat>, m: nat)
  {
    1 <= |b| <= N_MAX && ValidLengths(b) && ListsCover(|b|, s0, d, e) && 1 <= m
  }

  /** What huft_build leaves behind: the tables that hang off `t`, whose root is indexed by `m` bits. */
  ghost predicate Built(P: Plan, F: Forest, t: array?<Huft>, m: nat)
    reads Tables(F)
  {
    && ValidPlan(P) && P.l == m && NoLinks(P) && Shape(P, F) && Synced(F)
    && |F.tabs| > 0 && F.tabs[0] == t && F.node[0] == Node([], m)
    && Settled(P, F, Pow2(P.g))
  }

  /** No look-up of a long enough bit string ends in memory that was never written. */
  ghost predicate FindsAll(F: Forest)
  {
    forall R :: |R| >= BMAX ==> !Misses(F, 0, R)
  }

  /** The strings whose look-up ends in memory that was never written are those of HuftMeaning.LossExact. */
  ghost predicate LosesExactly(P: Plan, F: Forest)
  {
    forall R, s, r: nat {:trigger Misses(F, 0, R), Word(P, s, r)} :: |R| > BMAX && Word(P, s, r) && s <= R ==>
      (Misses(F, 0, R) <==> NoEntry(P, |s|, r) || StraysFrom(P, F.node, R, |s|, 0))
  }

  lemma BuiltLoses(P: Plan, F: Forest, t: array?<Huft>, m: nat)
    requires Built(P, F, t, m)
    ensures LosesExactly(P, F)
  {
    hide Misses, Settled, Pow2, Word, StraysFrom, NoEntry, NoLinks;
    forall R, s, r: nat | |R| > BMAX && Word(P, s, r) && s <= R
      ensures Misses(F, 0, R) <==> NoEntry(P, |s|, r) || StraysFrom(P, F.node, R, |s|, 0)
    {
      LossExact(P, F, R, s, r);
    }
  }

  /** With a complete code every place of the plan has its symbol's entry. */
  lemma CompleteSet(P: Plan, b: seq<nat>, s0: nat, d: seq<nat>, e: seq<nat>, s: seq<bool>, r: nat)
    requires ValidLengths(b) && ListsCover(|b|, s0, d, e) && PlanFor(P, b, s0, d, e)
    requires KraftSum(b) == Pow2(BMAX) && Word(P, s, r)
    ensures !NoEntry(P, |s|, r)
  {
    hide Offset, First, Pow2, CountOf;
    KraftMeaning(b, P.g);
    FirstAgrees(P.c, Counts(b), P.g);
    CountsAt(b, P.g);
    assert CodeEntry(P, b, s0, d, e, |s|, r);
  }

  /** Where an index is over-wide some string goes astray. */
  lemma WideLoses(P: Plan, F: Forest, t: array?<Huft>, m: nat)
    requires Built(P, F, t, m) && !Narrow(P, F.node)
    ensures !FindsAll(F)
  {
    hide Misses, Pow2, Word, NoEntry, NoLinks, Kept, Rooted, Distinct, Housed, Needed, Roomy, Thin, Stray, First,
        Offset, NodeOK;
    var T: nat :| T < |F.node| && !Thin(P, F.node[T]);
    var n, more := F.node[T], Zeros(BMAX + 1);
    assert WidthOK(P, n);
    var R := n.p + OneBits(n.nb) + more;
    var s, r := FindWord(P, R);
    OnesStray(P, n, more, s, r) by { WideParts(P, n); }
    LossExact(P, F, R, s, r);
  }

  lemma WideParts(P: Plan, n: Node)
    requires WidthOK(P, n) && !Thin(P, n)
    ensures P.l < n.nb && Roomy(P, n.p)
  {
  }

  /** Without an over-wide index none does. */
  lemma ThinStays(P: Plan, N: seq<Node>, R: seq<bool>, k: nat, w: nat)
    requires Narrow(P, N)
    ensures !StraysFrom(P, N, R, k, w)
  {
  }

  /** The tables of a complete code find every string exactly when no index is over-wide. */
  lemma CompleteFinds(P: Plan, F: Forest, t: array?<Huft>, m: nat, b: seq<nat>, s0: nat, d: seq<nat>, e: seq<nat>)
    requires ValidLengths(b) && ListsCover(|b|, s0, d, e) && PlanFor(P, b, s0, d, e)
    requires KraftSum(b) == Pow2(BMAX) && Built(P, F, t, m)
    ensures FindsAll(F) <==> Narrow(P, F.node)
  {
    hide Misses, Pow2, Word, NoEntry, NoLinks, Settled, Narrow, PlanFor, KraftSum, StraysFrom;
    if Narrow(P, F.node) {
      forall R: seq<bool> | |R| >= BMAX
        ensures !Misses(F, 0, R)
      {
        var s, r := FindWord(P, R);
        CompleteSet(P, b, s0, d, e, s, r);
        ThinStays(P, F.node, R, |s|, 0);
        LossExact(P, F, R, s, r);
      }
    } else {
      WideLoses(P, F, t, m);
    }
  }

  lemma BuiltTree(P: Plan, F: Forest, t: array?<Huft>, m: nat)
    requires Built(P, F, t, m)
    ensures Tree(P, F, t, m) <==> Narrow(P, F.node)
  {
    hide Pow2, Settled, Narrow, Done;
    if Narrow(P, F.node) {
      AllDone(P, F);
    }
  }

  /** Canonical decoding of a complete code finds a symbol in every string. */
  lemma CompleteDecodes(b: seq<nat>, R: seq<bool>)
    requires ValidLengths(b) && Longest(b) > 0 && KraftSum(b) == Pow2(BMAX) && |R| >= BMAX
    ensures Decode(b, R).Symbol?
  {
    hide First, Pos, Pow2, CountOf;
    var g, c, S := Longest(b), Counts(b), R[..Longest(b)];
    KraftMeaning(b, g);
    PosBound(S, g);
    Pow2IsOne();
    SomeCode(c, g, g, S);
    var k: nat, r: nat :| CodeAt(c, k, r, S);
    assert R[..k] == S[..k];
    DecodeFinds(b, k, r, R, 1);
  }

  /** The condition can fail: one code of 1 bit and four of 3 bits, looked up 1 bit at a time. */
  lemma Unbalanced()
    ensures var b := [1, 3, 3, 3, 3];
      && KraftSum(b) == Pow2(BMAX) && Longest(b) == 3 && Clamp(1, Shortest(b), Longest(b)) == 1
      && !Balanced(Counts(b), 3, 1)
  {
    var b := [1, 3, 3, 3, 3];
    forall k: nat
      ensures CountOf(b, k) == if k == 1 then 1 else if k == 3 then 4 else 0
    {
      assert b == ((([1] + [3]) + [3]) + [3]) + [3];
      CountMore([], 1, k);
      assert [] + [1] == [1];
      CountMore([1], 3, k);
      CountMore([1] + [3], 3, k);
      CountMore([1] + [3] + [3], 3, k);
      CountMore([1] + [3] + [3] + [3], 3, k);
    }
    var c := Counts(b);
    hide CountOf;
    assert Pow2(1) == 2 && Pow2(2) == 4 && Pow2(3) == 8;
    assert First(c, 1) == 0 && First(c, 2) == 2 && First(c, 3) == 4;
    hide First, Pow2;
    KraftMeaning(b, 3);
    Pow2Add(3, BMAX - 3);
    assert TooWide(c, 3, 1, 3, 0, 1, 1);
  }

  lemma CountMore(b: seq<nat>, x: nat, k: nat)
    ensures CountOf(b + [x], k) == CountOf(b, k) + Bit(x == k)
  {
    assert (b + [x])[..|b|] == b;
  }

  function Shortest(b: seq<nat>): nat { LeastLength(Counts(b), 1) }

  /** Lines 177-297: the tables for the filled-out counts. */
  method BuildFilled(b: seq<nat>, s0: nat, d: seq<nat>, e: seq<nat>, c: array<nat>, j: nat, g: nat, l: nat)
    returns (t: array<Huft>, ghost P: Plan, ghost F: Forest)
    requires |b| <= N_MAX && ValidLengths(b) && ListsCover(|b|, s0, d, e) && c.Length == BMAX + 1
    requires FilledCounts(b, c[..], g) && 1 <= j <= l <= g && c[j] > 0 && c[g] > 0
    requires forall k :: 1 <= k < j ==> c[k] == 0
    ensures fresh(Tables(F)) && PlanFor(P, b, s0, d, e) && P.l == l && P.g == g && P.c == c[..]
    ensures Built(P, F, t, l) && (Narrow(P, F.node) <==> Balanced(P.c, P.g, l))
    ensures t.Length == if j == l < g then Pow2(l + 1) else Pow2(l)
  {
    hide Pow2, First, Offset, CountOf, Balanced, Narrow, Settled, NodeOK, Planned, Synced;
    assert forall k :: 1 <= k < g ==> c[k] == c[..][k] == Counts(b)[k];
    var x := Offsets(c, g, b);
    NoneLonger(b, g);
    var v := SortValues(b, x, g);
    P := Plan(c[..], g, l, PlanEntries(c[..], g, v[..], |b|, s0, d, e));
    PlanHolds(P, b, v[..], s0, d, e);
    PlanEntriesPlanned(P, c[..], g, v[..], |b|, s0, d, e);
    assert LeastLength(c[..], 1) == j;
    hide *;
    t, F := BuildTables(P, c[..], v[..], |b|, s0, d, e, j, g, l);
    RootIs(P, j);
    IsBuilt(P, F, t, l);
  }

  lemma RootIs(P: Plan, j: nat)
    requires |P.c| >= 1 && LeastLength(P.c, 1) == j
    ensures RootSize(P) == if j == P.l < P.g then Pow2(P.l + 1) else Pow2(P.l)
  {
  }

  lemma IsBuilt(P: Plan, F: Forest, t: array<Huft>, l: nat)
    requires ValidPlan(P) && P.l == l && NoLinks(P) && Shape(P, F) && Synced(F) && Settled(P, F, Pow2(P.g))
    requires |F.tabs| > 0 && F.tabs[0] == t && F.node[0] == Node([], l)
    ensures Built(P, F, t, l)
  {
  }

  method HuftBuild(b: seq<nat>, s0: nat, d: seq<nat>, e: seq<nat>, m: nat)
    returns (code: nat, t: array?<Huft>, mOut: nat, ghost P: Plan, ghost F: Forest)
    requires HuftBuildArguments(b, s0, d, e, m)
    ensures fresh(Tables(F)) && code <= 2
    ensures Longest(b) == 0 ==> code == 0 && t == null && mOut == 0
    ensures Longest(b) > 0 ==> (code == 2 <==> KraftSum(b) > Pow2(BMAX))
    ensures Longest(b) > 0 ==> (code == 1 <==> KraftSum(b) < Pow2(BMAX) && Longest(b) != 1)
    ensures Longest(b) > 0 ==> mOut == Clamp(m, Shortest(b), Longest(b))
    ensures Longest(b) > 0 && code != 2 ==> t != null && PlanFor(P, b, s0, d, e) && P.l == mOut
    ensures Longest(b) > 0 && code != 2 ==>
      t.Length == if Shortest(b) == mOut < Longest(b) then Pow2(mOut + 1) else Pow2(mOut)
    ensures Longest(b) > 0 && code != 2 ==> (Tree(P, F, t, mOut) <==> Balanced(P.c, P.g, mOut))
    ensures Longest(b) > 0 && code != 2 ==> Built(P, F, t, mOut) && LosesExactly(P, F)
    ensures Longest(b) > 0 && code != 2 ==> AtMostOnce(F) && (EachOnce(F) <==> Balanced(P.c, P.g, mOut))
    ensures Longest(b) > 0 && KraftSum(b) == Pow2(BMAX) ==> (FindsAll(F) <==> Balanced(P.c, P.g, mOut))
  {
    hide Pow2, First, Offset, CountOf, FindsAll, LosesExactly, Tree, Balanced, Narrow, Done, Settled, NodeOK, KraftSum;
    hide AtMostOnce, EachOnce, PlanFor, Built, ListsCover, LeastLength, Clamp;
    F := NO_FOREST;
    t, mOut := null, 0;
    P := Plan([], 0, 0, []);
    var c := CountLengths(b);
    CountedZero(b);
    AllCounts(b);
    assert forall k :: 0 <= k <= BMAX ==> c[k] == c[..][k] == CountOf(b, k);
    if c[0] == |b| {
      return 0, null, 0, P, F;
    }
    assert c[Longest(b)] > 0;
    var j, g, l := FindBounds(c, m);
    ShortestIs(b, j);
    ClampWithin(m, j, g);
    mOut := l;
    KraftMeaning(b, g);
    var y := FillOut(c, j, g);
    if y < 0 {
      return 2, null, l, P, F;
    }
    t, P, F := BuildFilled(b, s0, d, e, c, j, g, l);
    BuiltMeans(P, F, t, l, b, s0, d, e);
    code := if y != 0 && g != 1 then 1 else 0;
  }

  lemma AllCounts(b: seq<nat>)
    ensures forall k :: 0 <= k <= BMAX ==> Counts(b)[k] == CountOf(b, k)
  {
  }

  lemma ShortestIs(b: seq<nat>, j: nat)
    requires 1 <= j <= BMAX && Counts(b)[j] > 0 && forall k :: 1 <= k < j ==> Counts(b)[k] == 0
    ensures Shortest(b) == j
  {
    hide Counts;
  }

  lemma ClampWithin(m: nat, lo: nat, hi: nat)
    requires lo <= hi
    ensures lo <= Clamp(m, lo, hi) <= hi
  {
  }

  lemma BuiltMeans(P: Plan, F: Forest, t: array?<Huft>, m: nat, b: seq<nat>, s0: nat, d: seq<nat>, e: seq<nat>)
    requires ValidLengths(b) && ListsCover(|b|, s0, d, e) && PlanFor(P, b, s0, d, e) && Built(P, F, t, m)
    ensures LosesExactly(P, F) && (Tree(P, F, t, m) <==> Narrow(P, F.node))
    ensures AtMostOnce(F) && (EachOnce(F) <==> Narrow(P, F.node))
    ensures KraftSum(b) == Pow2(BMAX) ==> (FindsAll(F) <==> Narrow(P, F.node))
  {
    hide Pow2, Settled, Narrow, PlanFor, KraftSum, LosesExactly, FindsAll, AtMostOnce, EachOnce, Tree;
    BuiltTree(P, F, t, m);
    BuiltLoses(P, F, t, m);
    StoredOnce(P, F);
    if KraftSum(b) == Pow2(BMAX) {
      CompleteFinds(P, F, t, m, b, s0, d, e);
    }
  }

  lemma CountedZero(b: seq<nat>)
    requires ValidLengths(b) && |b| >= 1
    ensures CountOf(b, 0) == |b| <==> Longest(b) == 0
  {
    hide Offset, CountOf;
    if Longest(b) > 0 {
      CodedSymbols(b, Longest(b));
    } else {
      CountsTotal(b);
      TailOffset(Counts(b), 1, BMAX + 1);
      OffsetOne(Counts(b));
    }
  }

  lemma OffsetOne(c: seq<nat>)
    requires 1 <= |c|
    ensures Offset(c, 1) == 0
  {
  }

  lemma NoneLonger(b: seq<nat>, g: nat)
    requires ValidLengths(b) && forall k :: g < k <= BMAX ==> CountOf(b, k) == 0
    ensures forall i :: 0 <= i < |b| ==> b[i] <= g
  {
    hide CountOf;
    forall i | 0 <= i < |b|
      ensures b[i] <= g
    {
      CountPrefix(b, i, b[i]);
    }
  }
}
