// The two fixed trees of section 3.2.6 of RFC 1951 and which trees the lookup
// tables can hold: every tree inflate.c builds has balanced tables.
module FixedTrees {
  import opened Bits
  import opened Canonical
  import opened HuftTables
  import opened HuftLoop
  import opened HuftCounts
  import opened Huffman
  import Spec = InflateSpec

  lemma {:induction false} CountConcat(a: seq<nat>, b: seq<nat>, k: nat)
    ensures CountOf(a + b, k) == CountOf(a, k) + CountOf(b, k)
  {
    if b == [] {
      assert a + b == a;
    } else {
      assert (a + b)[..|a + b| - 1] == a + b[..|b| - 1];
      CountConcat(a, b[..|b| - 1], k);
    }
  }

  lemma {:induction false} CountRepeat(x: nat, n: nat, k: nat)
    ensures CountOf(Spec.Repeat(x, n), k) == if k == x then n else 0
  {
    if n > 0 {
      assert Spec.Repeat(x, n)[..n - 1] == Spec.Repeat(x, n - 1);
      CountRepeat(x, n - 1, k);
    }
  }

  lemma {:induction false} KraftConcat(a: seq<nat>, b: seq<nat>)
    requires ValidLengths(a) && ValidLengths(b) && ValidLengths(a + b)
    ensures KraftSum(a + b) == KraftSum(a) + KraftSum(b)
  {
    if b == [] {
      assert a + b == a;
    } else {
      assert (a + b)[..|a + b| - 1] == a + b[..|b| - 1];
      KraftConcat(a, b[..|b| - 1]);
    }
  }

  lemma {:induction false} KraftRepeat(x: nat, n: nat)
    requires 1 <= x <= BMAX
    ensures KraftSum(Spec.Repeat(x, n)) == n * Pow2(BMAX - x)
  {
    hide Pow2;
    if n > 0 {
      assert Spec.Repeat(x, n)[..n - 1] == Spec.Repeat(x, n - 1);
      KraftRepeat(x, n - 1);
      Distribute(n - 1, 1, Pow2(BMAX - x));
    }
  }

  lemma PowerValues()
    ensures Pow2(7) == 128 && Pow2(8) == 256 && Pow2(9) == 512 && Pow2(11) == 2048 && Pow2(16) == 65536
  {
    assert Pow2(3) == 8 && Pow2(8) == 256;
    Pow2Add(8, 3);
    Pow2Add(8, 8);
  }

  lemma {:induction false} MaxLengthIs(lens: seq<nat>, k: nat, g: nat)
    requires g <= k && (g > 0 ==> CountOf(lens, g) > 0) && forall j :: g < j <= k ==> CountOf(lens, j) == 0
    ensures MaxLength(lens, k) == g
  {
    if g < k {
      MaxLengthIs(lens, k - 1, g);
    }
  }

  lemma FixedLiteralCounts(k: nat)
    ensures CountOf(Spec.FixedLiterals(), k) == if k == 7 then 24 else if k == 8 then 152 else if k == 9 then 112 else 0
  {
    hide CountOf;
    var a, b, c, d := Spec.Repeat(8, 144), Spec.Repeat(9, 112), Spec.Repeat(7, 24), Spec.Repeat(8, 8);
    CountConcat(a + b + c, d, k);
    CountConcat(a + b, c, k);
    CountConcat(a, b, k);
    CountRepeat(8, 144, k);
    CountRepeat(9, 112, k);
    CountRepeat(7, 24, k);
    CountRepeat(8, 8, k);
  }

  /** The fixed literal code is complete. */
  lemma FixedLiteralTree()
    ensures |Spec.FixedLiterals()| == 288 && ValidLengths(Spec.FixedLiterals())
    ensures Longest(Spec.FixedLiterals()) == 9 && Shortest(Spec.FixedLiterals()) == 7
    ensures KraftSum(Spec.FixedLiterals()) == Pow2(BMAX)
  {
    hide CountOf, KraftSum;
    var lens := Spec.FixedLiterals();
    forall k ensures CountOf(lens, k) == if k == 7 then 24 else if k == 8 then 152 else if k == 9 then 112 else 0 {
      FixedLiteralCounts(k);
    }
    MaxLengthIs(lens, BMAX, 9);
    LeastLengthIs(Counts(lens), 1, 7);
    FixedLiteralKraft();
  }

  lemma {:induction false} LeastLengthIs(c: seq<nat>, k: nat, j: nat)
    requires k <= j < |c| && c[j] > 0 && forall t :: k <= t < j ==> c[t] == 0
    ensures LeastLength(c, k) == j
    decreases j - k
  {
    if k < j {
      LeastLengthIs(c, k + 1, j);
    }
  }

  lemma FixedLiteralKraft()
    ensures ValidLengths(Spec.FixedLiterals())
    ensures KraftSum(Spec.FixedLiterals()) == Pow2(BMAX)
  {
    hide KraftSum;
    var a, b, c, d := Spec.Repeat(8, 144), Spec.Repeat(9, 112), Spec.Repeat(7, 24), Spec.Repeat(8, 8);
    KraftConcat(a + b + c, d);
    KraftConcat(a + b, c);
    KraftConcat(a, b);
    KraftRepeat(8, 144);
    KraftRepeat(9, 112);
    KraftRepeat(7, 24);
    KraftRepeat(8, 8);
    PowerValues();
  }

  /** The fixed distance code is incomplete, and every symbol of it is coded. */
  lemma FixedDistanceTree()
    ensures |Spec.FixedDistances()| == 30 && ValidLengths(Spec.FixedDistances())
    ensures Longest(Spec.FixedDistances()) == 5 && Shortest(Spec.FixedDistances()) == 5
    ensures KraftSum(Spec.FixedDistances()) < Pow2(BMAX)
    ensures CountOf(Spec.FixedDistances(), 0) == 0
  {
    hide CountOf, KraftSum;
    var lens := Spec.FixedDistances();
    forall k ensures CountOf(lens, k) == if k == 5 then 30 else 0 { CountRepeat(5, 30, k); }
    MaxLengthIs(lens, BMAX, 5);
    LeastLengthIs(Counts(lens), 1, 5);
    KraftRepeat(5, 30);
    PowerValues();
  }

  // ---- Every tree that inflate.c uses is balanced -----------------------------

  /** Codes of at most 15 bits behind a 9-bit index. */
  lemma LiteralBalanced(P: Plan, b: seq<nat>, s0: nat, d: seq<nat>, e: seq<nat>, mOut: nat)
    requires ValidLengths(b) && ListsCover(|b|, s0, d, e) && PlanFor(P, b, s0, d, e)
    requires mOut == Clamp(9, Shortest(b), Longest(b)) && forall i :: 0 <= i < |b| ==> b[i] < 16
    ensures Balanced(P.c, P.g, mOut)
  {
    hide First, Pow2, CountOf;
    ShortLengths(b, 15);
    ShortIsBalanced(P.c, P.g, mOut);
  }

  lemma {:induction false} NotCounted(b: seq<nat>, k: nat)
    requires forall i :: 0 <= i < |b| ==> b[i] != k
    ensures CountOf(b, k) == 0
  {
    if b != [] {
      NotCounted(b[..|b| - 1], k);
    }
  }

  lemma ShortLengths(b: seq<nat>, k: nat)
    requires ValidLengths(b) && forall i :: 0 <= i < |b| ==> b[i] <= k
    ensures Longest(b) <= k
  {
    if Longest(b) > k {
      NotCounted(b, Longest(b));
    }
  }

  /** A complete code needs no filling out. */
  lemma CompleteCounts(P: Plan, b: seq<nat>, s0: nat, d: seq<nat>, e: seq<nat>)
    requires ValidLengths(b) && ListsCover(|b|, s0, d, e) && PlanFor(P, b, s0, d, e)
    requires KraftSum(b) == Pow2(BMAX)
    ensures Offset(P.c, P.g) + P.c[P.g] <= |b|
  {
    hide First, Pow2, CountOf, KraftSum, Offset;
    KraftMeaning(b, P.g);
    FirstAgrees(P.c, Counts(b), P.g);
    CountsAt(b, P.g);
    CodedSymbols(b, P.g);
    OffsetAgrees(P.c, Counts(b), P.g);
  }

  /** At most 30 codes behind a 6-bit index, or all codes within the index. */
  lemma DistanceBalanced(P: Plan, b: seq<nat>, s0: nat, d: seq<nat>, e: seq<nat>, mOut: nat)
    requires ValidLengths(b) && ListsCover(|b|, s0, d, e) && PlanFor(P, b, s0, d, e)
    requires |b| <= 30 && mOut == Clamp(6, Shortest(b), Longest(b))
    requires KraftSum(b) == Pow2(BMAX) || Longest(b) == 1
    ensures Balanced(P.c, P.g, mOut)
  {
    hide First, CountOf, KraftSum, Offset, Pow2, Balanced, LeastLength, Counts;
    if P.g <= 2 * mOut {
      ShortIsBalanced(P.c, P.g, mOut);
    } else {
      FewDistances(P, b, s0, d, e, mOut);
    }
  }

  lemma FewDistances(P: Plan, b: seq<nat>, s0: nat, d: seq<nat>, e: seq<nat>, mOut: nat)
    requires ValidLengths(b) && ListsCover(|b|, s0, d, e) && PlanFor(P, b, s0, d, e)
    requires |b| <= 30 && mOut >= 6 && KraftSum(b) == Pow2(BMAX)
    ensures Balanced(P.c, P.g, mOut)
  {
    assert Pow2(6) == 64;
    hide First, CountOf, KraftSum, Offset, Pow2, Balanced;
    CompleteCounts(P, b, s0, d, e);
    Pow2Monotone(6, mOut);
    FewIsBalanced(P.c, P.g, mOut);
  }
}
