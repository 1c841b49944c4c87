// Canonical Huffman codes, as section 3.2.2 of RFC 1951 defines them, and
// decoding one bit at a time.  This is the meaning the lookup tables of
// boot/zBoot/inflate.c are measured against.
module Canonical {
  import opened Bits

  const BMAX: nat := 16

  /** A list of code lengths, one per symbol; 0 marks a symbol without a code. */
  ghost predicate ValidLengths(lens: seq<nat>)
  {
    forall i :: 0 <= i < |lens| ==> lens[i] <= BMAX
  }

  /** How many of `lens` equal `k`. */
  function CountOf(lens: seq<nat>, k: nat): (r: nat)
    ensures r <= |lens|
  {
    if lens == [] then 0
    else CountOf(lens[..|lens| - 1], k) + Bit(lens[|lens| - 1] == k)
  }

  /** The bit length count table, indexed 0..BMAX. */
  function Counts(lens: seq<nat>): (c: seq<nat>)
    ensures |c| == BMAX + 1
  {
    seq(BMAX + 1, (k: nat) => CountOf(lens, k))
  }

  /** The smallest code of length `k`: step 2 of section 3.2.2. */
  function First(c: seq<nat>, k: nat): nat
    requires k <= |c|
  {
    if k <= 1 then 0 else 2 * (First(c, k - 1) + c[k - 1])
  }

  /** The code of symbol `sym`: step 3 of section 3.2.2. */
  function CodeOf(lens: seq<nat>, sym: nat): nat
    requires sym < |lens| && lens[sym] <= BMAX
  {
    First(Counts(lens), lens[sym]) + CountOf(lens[..sym], lens[sym])
  }

  /** `s` is the code word of symbol `sym`. */
  ghost predicate IsWordOf(lens: seq<nat>, sym: nat, s: seq<bool>)
    requires ValidLengths(lens)
  {
    sym < |lens| && 0 < lens[sym] == |s| && CodeOf(lens, sym) == Msb(s)
  }

  datatype Decoded = Symbol(sym: nat, len: nat) | NoSuchCode | TooShort

  /** The longest length in use. */
  function MaxLength(lens: seq<nat>, k: nat): (g: nat)
    ensures g <= k
    ensures g > 0 ==> CountOf(lens, g) > 0
    ensures forall j :: g < j <= k ==> CountOf(lens, j) == 0
  {
    if k == 0 || CountOf(lens, k) > 0 then k else MaxLength(lens, k - 1)
  }

  /** The least length in use, from `k` on. */
  function LeastLength(c: seq<nat>, k: nat): (j: nat)
    requires k <= |c|
    ensures k <= j <= |c| && (j < |c| ==> c[j] > 0) && forall t :: k <= t < j ==> c[t] == 0
    decreases |c| - k
  {
    if k == |c| || c[k] > 0 then k else LeastLength(c, k + 1)
  }

  /** Decode one symbol, trying prefixes of `bits` of length k, k + 1, ... */
  ghost function DecodeFrom(lens: seq<nat>, bits: seq<bool>, k: nat): (r: Decoded)
    requires ValidLengths(lens)
    decreases BMAX + 1 - k
  {
    if k > MaxLength(lens, BMAX) then NoSuchCode
    else if k > |bits| then TooShort
    else if sym: nat :| IsWordOf(lens, sym, bits[..k]) then Symbol(sym, k)
    else DecodeFrom(lens, bits, k + 1)
  }

  ghost function Decode(lens: seq<nat>, bits: seq<bool>): (r: Decoded)
    requires ValidLengths(lens)
  {
    DecodeFrom(lens, bits, 1)
  }

  /** The Kraft sum of the code lengths, scaled by Pow2(BMAX). */
  function KraftSum(lens: seq<nat>): nat
    requires ValidLengths(lens)
  {
    if lens == [] then 0
    else
      var k := lens[|lens| - 1];
      KraftSum(lens[..|lens| - 1]) + if k == 0 then 0 else Pow2(BMAX - k)
  }

  // ---- Codes of a count table ---------------------------------------------

  /** `s` begins with the code number `r` of length `k`. */
  ghost predicate CodeAt(c: seq<nat>, k: nat, r: nat, s: seq<bool>)
  {
    1 <= k < |c| && k <= |s| && r < c[k] && Msb(s[..k]) == First(c, k) + r
  }

  /** Where the codes of length `k` begin and end, at the scale of `g` bits. */
  function Start(c: seq<nat>, k: nat, g: nat): nat
    requires k <= g < |c|
  {
    First(c, k) * Pow2(g - k)
  }

  function End(c: seq<nat>, k: nat, g: nat): nat
    requires k <= g < |c|
  {
    (First(c, k) + c[k]) * Pow2(g - k)
  }

  /** The codes of length 1..g fill the whole code space exactly. */
  ghost predicate Full(c: seq<nat>, g: nat)
  {
    1 <= g < |c| && First(c, g) + c[g] == Pow2(g)
  }

  lemma StartAfterEnd(c: seq<nat>, k: nat, g: nat)
    requires 1 <= k < g < |c|
    ensures Start(c, k + 1, g) == End(c, k, g)
  {
    var n, p := First(c, k) + c[k], Pow2(g - k - 1);
    assert (2 * n) * p == n * (2 * p);
  }

  lemma {:induction false} EndBeforeStart(c: seq<nat>, k: nat, k': nat, g: nat)
    requires 1 <= k < k' <= g < |c|
    ensures End(c, k, g) <= Start(c, k', g)
    decreases k' - k
  {
    StartAfterEnd(c, k, g);
    if k + 1 < k' {
      EndBeforeStart(c, k + 1, k', g);
      Distribute(First(c, k + 1), c[k + 1], Pow2(g - k - 1));
    }
  }

  lemma EndMonotone(c: seq<nat>, k: nat, k': nat, g: nat)
    requires 1 <= k <= k' <= g < |c|
    ensures End(c, k, g) <= End(c, k', g)
  {
    if k < k' {
      EndBeforeStart(c, k, k', g);
      Distribute(First(c, k'), c[k'], Pow2(g - k'));
    }
  }

  lemma MulCancel(a: nat, b: nat, p: nat)
    requires p > 0 && a * p <= b * p
    ensures a <= b
  {
    if b < a {
      MulStep(p, b, a);
    }
  }

  /** A code space that is filled at length g is not overfull before. */
  lemma FullBelow(c: seq<nat>, k: nat, g: nat)
    requires Full(c, g) && 1 <= k <= g
    ensures First(c, k) + c[k] <= Pow2(k)
  {
    hide First;
    EndMonotone(c, k, g, g);
    assert Pow2(0) == 1;
    Pow2Add(k, g - k);
    hide Pow2;
    MulCancel(First(c, k) + c[k], Pow2(k), Pow2(g - k));
  }

  lemma StartEnd(f: nat, r: nat, n: nat, p: nat)
    requires r < n
    ensures f * p <= (f + r) * p
    ensures (f + r) * p + p <= (f + n) * p
  {
    Distribute(f, r, p);
    MulStep(p, f + r, f + n);
  }

  /** The interval of a code lies within the range of its length. */
  lemma WordPos(c: seq<nat>, k: nat, r: nat, t: seq<bool>, g: nat)
    requires 1 <= k == |t| <= g < |c| && r < c[k] && Msb(t) == First(c, k) + r
    ensures Pos(t, g) == (First(c, k) + r) * Pow2(g - k)
    ensures Start(c, k, g) <= Pos(t, g)
    ensures Pos(t, g) + Pow2(g - k) <= End(c, k, g)
  {
    PosScale(t, g);
    StartEnd(First(c, k), r, c[k], Pow2(g - k));
  }

  lemma CodeAtPos(c: seq<nat>, k: nat, r: nat, s: seq<bool>, g: nat)
    requires CodeAt(c, k, r, s) && |s| <= g < |c|
    ensures Start(c, k, g) <= Pos(s[..k], g)
    ensures Pos(s[..k], g) + Pow2(g - k) <= End(c, k, g)
    ensures Pos(s[..k], g) <= Pos(s, g) < Pos(s[..k], g) + Pow2(g - k)
  {
    WordPos(c, k, r, s[..k], g);
    PrefixInside(s[..k], s, g);
  }

  /** No code is a prefix of another. */
  lemma PrefixFree(c: seq<nat>, k: nat, r: nat, k': nat, r': nat, s: seq<bool>, g: nat)
    requires CodeAt(c, k, r, s) && CodeAt(c, k', r', s) && |s| <= g < |c|
    ensures k == k' && r == r'
  {
    CodeAtPos(c, k, r, s, g);
    CodeAtPos(c, k', r', s, g);
    if k < k' {
      EndBeforeStart(c, k, k', g);
    } else if k' < k {
      EndBeforeStart(c, k', k, g);
    }
  }

  lemma {:induction false} FirstAgrees(c: seq<nat>, c': seq<nat>, k: nat)
    requires k <= |c| && k <= |c'| && forall j :: 1 <= j < k ==> c[j] == c'[j]
    ensures First(c, k) == First(c', k)
  {
    if k > 1 {
      FirstAgrees(c, c', k - 1);
    }
  }

  // ---- Symbols in code order ----------------------------------------------

  /** The `r`-th symbol, in symbol order, whose code has length `k`. */
  function Nth(lens: seq<nat>, k: nat, r: nat): (sym: nat)
    requires r < CountOf(lens, k)
    ensures sym < |lens| && lens[sym] == k && CountOf(lens[..sym], k) == r
  {
    var n := |lens| - 1;
    if lens[n] == k && CountOf(lens[..n], k) == r then n
    else
      var sym := Nth(lens[..n], k, r);
      assert lens[..n][..sym] == lens[..sym];
      sym
  }

  lemma {:induction false} CountPrefix(lens: seq<nat>, i: nat, k: nat)
    requires i <= |lens|
    ensures CountOf(lens[..i], k) <= CountOf(lens, k)
    ensures i < |lens| && lens[i] == k ==> CountOf(lens[..i], k) < CountOf(lens, k)
  {
    if i == |lens| {
      assert lens[..i] == lens;
    } else {
      var n := |lens| - 1;
      assert lens[..n][..i] == lens[..i];
      CountPrefix(lens[..n], i, k);
    }
  }

  lemma NthUnique(lens: seq<nat>, sym: nat, sym': nat)
    requires sym < |lens| && sym' < |lens| && lens[sym] == lens[sym']
    requires CountOf(lens[..sym], lens[sym]) == CountOf(lens[..sym'], lens[sym])
    ensures sym == sym'
  {
    if sym < sym' {
      assert lens[..sym'][..sym] == lens[..sym];
      CountPrefix(lens[..sym'], sym, lens[sym]);
    } else if sym' < sym {
      assert lens[..sym][..sym'] == lens[..sym'];
      CountPrefix(lens[..sym], sym', lens[sym]);
    }
  }

  /** Every code number in range is the word of exactly the right symbol. */
  lemma WordOfNth(lens: seq<nat>, k: nat, r: nat, s: seq<bool>)
    requires ValidLengths(lens) && CodeAt(Counts(lens), k, r, s)
    ensures IsWordOf(lens, Nth(lens, k, r), s[..k])
    ensures forall sym :: IsWordOf(lens, sym, s[..k]) ==> sym == Nth(lens, k, r)
  {
    forall sym | IsWordOf(lens, sym, s[..k])
      ensures sym == Nth(lens, k, r)
    {
      NthUnique(lens, sym, Nth(lens, k, r));
    }
  }

  lemma WordIsCodeAt(lens: seq<nat>, sym: nat, s: seq<bool>, k: nat)
    requires ValidLengths(lens) && k <= |s| && IsWordOf(lens, sym, s[..k])
    ensures CodeAt(Counts(lens), k, CountOf(lens[..sym], k), s)
  {
    CountPrefix(lens, sym, k);
  }

  /** Bit-by-bit decoding finds the one code that begins the stream. */
  lemma DecodeFinds(lens: seq<nat>, k: nat, r: nat, s: seq<bool>, j: nat)
    requires ValidLengths(lens) && CodeAt(Counts(lens), k, r, s) && 1 <= j <= k
    ensures DecodeFrom(lens, s, j) == Symbol(Nth(lens, k, r), k)
    decreases k - j
  {
    var c := Counts(lens);
    assert c[k] == CountOf(lens, k);
    if j < k {
      if sym: nat :| IsWordOf(lens, sym, s[..j]) {
        WordIsCodeAt(lens, sym, s, j);
        var t := s[..k];
        assert t[..k] == t && t[..j] == s[..j];
        PrefixFree(c, k, r, j, CountOf(lens[..sym], j), t, BMAX);
      }
      DecodeFinds(lens, k, r, s, j + 1);
    } else {
      WordOfNth(lens, k, r, s);
    }
  }

  /** It fails exactly when no code of any length begins the stream. */
  lemma {:induction false} DecodeFails(lens: seq<nat>, s: seq<bool>, j: nat)
    requires ValidLengths(lens) && 1 <= j && |s| >= MaxLength(lens, BMAX)
    requires forall k, r :: j <= k ==> !CodeAt(Counts(lens), k, r, s)
    ensures DecodeFrom(lens, s, j) == NoSuchCode
    decreases BMAX + 1 - j
  {
    if j <= MaxLength(lens, BMAX) {
      if sym: nat :| IsWordOf(lens, sym, s[..j]) {
        WordIsCodeAt(lens, sym, s, j);
      }
      DecodeFails(lens, s, j + 1);
    }
  }
}
