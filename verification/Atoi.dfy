// lib/libxc/atoi.c
module Atoi {
  import opened Numerals
  import opened Scanning

  /** The character at p, NUL past the end. */
  function At(s: string, i: nat): char
  {
    if i < |s| then s[i] else '\0'
  }

  /** Lines 23-24: the digits from i on, modulo 2^32. */
  method ScanDigits(p: string, i0: nat) returns (n: int)
    requires i0 <= |p|
    ensures n == Signed(Value(Run(p[i0..], 10), 10))
  {
    hide Value, Run, Signed, DigitValue;
    var i := i0;
    ghost var w := Run(p[i0..], 10);
    assert forall k :: 0 <= k < |w| ==> w[k] == p[i0..][k] == p[i0 + k];
    n := 0;
    NoDigits(w);
    while '0' <= At(p, i) <= '9'
      invariant i0 <= i <= i0 + |w|
      invariant n == Signed(Value(w[..i - i0], 10))
      decreases |p| - i
    {
      Horner(w, i - i0, 10, n);
      n := Signed(n * 10 + DigitValue(p[i]));
      i := i + 1;
    }
    assert i - i0 < |w| ==> Accepts(w[i - i0], 10);
    assert w[..i - i0] == w;
  }

  lemma NoDigits(w: string)
    ensures Signed(Value(w[..0], 10)) == 0
  {
  }

  /** atoi, lines 4-26: the value of the numeral that p starts with, modulo 2^32. */
  method Atoi(p: string) returns (r: int)
    ensures r == Signed(Meaning(Skipped(p, false), 10))
  {
    hide Value, Run, Signed, Skipped, Meaning;
    var i := 0;
    var f := 0;
    while At(p, i) == ' ' || At(p, i) == '\t'
      invariant 0 <= i <= |p|
      invariant Skipped(p, false) == Skipped(p[i..], false)
      decreases |p| - i
    {
      SkipOne(p[i..], false);
      assert p[i..][1..] == p[i + 1..];
      i := i + 1;
    }
    ghost var s := p[i..];
    SkipNone(s, false);
    MeaningParts(s, 10);
    if At(p, i) == '-' {
      f := f + 1;
      i := i + 1;
    } else if At(p, i) == '+' {
      i := i + 1;
    }
    assert p[i..] == if s != [] && (s[0] == '-' || s[0] == '+') then s[1..] else s;
    var n := ScanDigits(p, i);
    NegateSigned(Value(Run(p[i..], 10), 10));
    r := if f != 0 then Signed(-n) else n;
  }

  /** A scanner's step keeps the value modulo 2^32. */
  lemma Horner(w: string, k: nat, base: nat, n: int)
    requires k < |w| && n == Signed(Value(w[..k], base))
    ensures Signed(n * base + DigitValue(w[k])) == Signed(Value(w[..k + 1], base))
  {
    ValueStep(w, k, base);
    SignedSame(Value(w[..k], base));
    SameStep(n, Value(w[..k], base), base, DigitValue(w[k]));
    SameSigned(n * base + DigitValue(w[k]), Value(w[..k + 1], base));
  }
}
