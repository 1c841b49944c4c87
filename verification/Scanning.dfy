// Reading numerals: what atoi.c and the numeric part of doscan.c compute.
module Scanning {
  import opened Numerals

  /** Blanks the scanners pass over; only _innum takes a newline for one. */
  predicate IsBlank(c: char, newline: bool)
  {
    c == ' ' || c == '\t' || (newline && c == '\n')
  }

  function Skipped(s: string, newline: bool): (r: string)
    ensures |r| <= |s| && s[|s| - |r|..] == r
    ensures r != [] ==> !IsBlank(r[0], newline)
  {
    if s != [] && IsBlank(s[0], newline) then Skipped(s[1..], newline) else s
  }

  lemma SkipOne(s: string, newline: bool)
    requires s != [] && IsBlank(s[0], newline)
    ensures Skipped(s, newline) == Skipped(s[1..], newline)
  {
  }

  lemma SkipNone(s: string, newline: bool)
    requires s == [] || !IsBlank(s[0], newline)
    ensures Skipped(s, newline) == s
  {
  }

  /** The characters a base takes for digits; base 8 takes 8 and 9 too. */
  predicate Accepts(c: char, base: nat)
  {
    IsDigit(c) || (base == 16 && ('a' <= c <= 'f' || 'A' <= c <= 'F'))
  }

  lemma CharacterSets(c: char)
    ensures IsBlank(c, false) <==> c in " \t"
    ensures IsBlank(c, true) <==> c in " \t\n"
    ensures Accepts(c, 8) <==> c in "0123456789"
    ensures Accepts(c, 10) <==> c in "0123456789"
    ensures Accepts(c, 16) <==> c in "0123456789abcdefABCDEF"
  {
    TenDigits(c);
    LetterDigits(c);
    var t := "0123456789abcdefABCDEF";
    assert t == "0123456789" + ("abcdef" + "ABCDEF");
  }

  lemma TenDigits(c: char)
    ensures '0' <= c <= '9' <==> c in "0123456789"
  {
    if '0' <= c <= '9' {
      assert c == "0123456789"[c as int - '0' as int];
    }
  }

  lemma LetterDigits(c: char)
    ensures 'a' <= c <= 'f' <==> c in "abcdef"
    ensures 'A' <= c <= 'F' <==> c in "ABCDEF"
  {
    if 'a' <= c <= 'f' {
      assert c == "abcdef"[c as int - 'a' as int];
    }
    if 'A' <= c <= 'F' {
      assert c == "ABCDEF"[c as int - 'A' as int];
    }
  }

  /** The leading digits of s. */
  function Run(s: string, base: nat): (r: string)
    ensures |r| <= |s| && s[..|r|] == r
    ensures forall k :: 0 <= k < |r| ==> Accepts(r[k], base)
    ensures |r| < |s| ==> !Accepts(s[|r|], base)
  {
    if s != [] && Accepts(s[0], base) then [s[0]] + Run(s[1..], base) else []
  }

  /** Digits followed by something else, or by nothing, are exactly the run. */
  lemma {:induction false} RunIs(w: string, t: string, base: nat)
    requires forall k :: 0 <= k < |w| ==> Accepts(w[k], base)
    requires t != [] ==> !Accepts(t[0], base)
    ensures Run(w + t, base) == w
  {
    if w == [] {
      assert w + t == t;
    } else {
      assert (w + t)[1..] == w[1..] + t;
      RunIs(w[1..], t, base);
    }
  }

  /** The integer an optional sign and digits stand for. */
  function Meaning(s: string, base: nat): int
  {
    if s != [] && s[0] == '-' then 0 - Value(Run(s[1..], base), base)
    else if s != [] && s[0] == '+' then Value(Run(s[1..], base), base)
    else Value(Run(s, base), base)
  }

  /** The parts of a signed numeral: the sign, if there is one, and the digits behind it. */
  lemma MeaningParts(s: string, base: nat)
    ensures var signed := s != [] && (s[0] == '-' || s[0] == '+');
            var v := Value(Run(if signed then s[1..] else s, base), base);
            Meaning(s, base) == if s != [] && s[0] == '-' then 0 - v else v
  {
    hide Value, Run;
  }

  lemma ValueStep(s: string, i: nat, base: nat)
    requires i < |s|
    ensures Value(s[..i + 1], base) == Value(s[..i], base) * base + DigitValue(s[i])
  {
    assert s[..i + 1][..i] == s[..i];
  }
}
