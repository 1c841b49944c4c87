// Numerals in a base, and the 32-bit words they stand for: the common ground of
// doprnt.c, doscan.c and atoi.c.
module Numerals {

  const WORD := 0x1_0000_0000
  const HALF := 0x8000_0000

  /** A 32-bit sum, product or negation: x brought into the range of a signed word. */
  function Signed(x: int): (r: int)
    ensures -HALF <= r < HALF
  {
    (x + HALF) % WORD - HALF
  }

  /** The same bits read as an unsigned word. */
  function Unsigned(x: int): (r: nat)
    ensures r < WORD
  {
    x % WORD
  }

  /** x and y are the same modulo 2^32. */
  ghost predicate SameWord(x: int, y: int)
  {
    exists k: int :: Apart(x, y, k)
  }

  predicate Apart(x: int, y: int, k: int)
  {
    x - y == k * WORD
  }

  lemma SignedSame(x: int)
    ensures SameWord(Signed(x), x) && SameWord(x, Signed(x)) && SameWord(Unsigned(x), x)
  {
    assert Apart(Signed(x), x, -((x + HALF) / WORD));
    assert Apart(x, Signed(x), (x + HALF) / WORD);
    assert Apart(Unsigned(x), x, -(x / WORD));
  }

  lemma SameSigned(x: int, y: int)
    requires SameWord(x, y)
    ensures Signed(x) == Signed(y) && Unsigned(x) == Unsigned(y)
  {
    var k: int :| Apart(x, y, k);
    ModShift(y + HALF, k);
    ModShift(y, k);
  }

  lemma ModShift(x: int, k: int)
    ensures (x + k * WORD) % WORD == x % WORD
  {
  }

  lemma SameTrans(x: int, y: int, z: int)
    requires SameWord(x, y) && SameWord(y, z)
    ensures SameWord(x, z)
  {
    var k: int :| Apart(x, y, k);
    var l: int :| Apart(y, z, l);
    assert Apart(x, z, k + l);
  }

  /** A step of either scanner: multiply by the base, add a digit, wrap. */
  lemma SameStep(x: int, y: int, base: int, d: int)
    requires SameWord(x, y)
    ensures SameWord(x * base + d, y * base + d)
  {
    var k: int :| Apart(x, y, k);
    assert x * base - y * base == (x - y) * base;
    assert (k * WORD) * base == (k * base) * WORD;
    assert Apart(x * base + d, y * base + d, k * base);
  }

  lemma SameNegated(x: int, y: int)
    requires SameWord(x, y)
    ensures SameWord(-x, -y)
  {
    var k: int :| Apart(x, y, k);
    assert Apart(-x, -y, -k);
  }

  lemma NegateSigned(v: int)
    ensures Signed(-Signed(v)) == Signed(-v)
  {
    SignedSame(v);
    SameNegated(Signed(v), v);
    SameSigned(-Signed(v), -v);
  }

  // ---- Numerals ------------------------------------------------------------

  function Power(base: nat, e: nat): (r: nat)
    requires base >= 1
    ensures r >= 1
  {
    if e == 0 then 1 else base * Power(base, e - 1)
  }

  function Digit(d: nat): (c: char)
    requires d < 16
  {
    if d < 10 then '0' + d as char else 'a' + (d - 10) as char
  }

  /** What a digit stands for. */
  function DigitValue(c: char): nat
  {
    if '0' <= c <= '9' then c as int - '0' as int
    else if 'a' <= c <= 'f' then c as int - 'a' as int + 10
    else if 'A' <= c <= 'F' then c as int - 'A' as int + 10
    else 0
  }

  predicate IsDigit(c: char) { '0' <= c <= '9' }

  lemma DigitRoundTrip(d: nat)
    requires d < 16
    ensures DigitValue(Digit(d)) == d
    ensures IsDigit(Digit(d)) <==> d < 10
    ensures 'a' <= Digit(d) <= 'f' <==> d >= 10
    ensures Digit(d) == '0' <==> d == 0
    ensures Digit(d) != '\0'
  {
  }

  lemma DigitValues(d: nat)
    requires d < 16
    ensures DigitValue("0123456789abcdef"[d]) == d && DigitValue("0123456789ABCDEF"[d]) == d
  {
  }

  /** The number a string of digits stands for, most significant first. */
  function Value(s: string, base: nat): nat
  {
    if s == [] then 0 else Value(s[..|s| - 1], base) * base + DigitValue(s[|s| - 1])
  }

  /** The numeral of n, without leading zeros. */
  function Numeral(n: nat, base: nat): (s: string)
    requires 2 <= base <= 16
    ensures s != []
    decreases n
  {
    if n < base then [Digit(n)]
    else
      Smaller(n, base);
      Numeral(n / base, base) + [Digit(n % base)]
  }

  lemma DivMod(n: int, d: nat)
    requires d >= 1
    ensures n == (n / d) * d + n % d && 0 <= n % d < d
  {
  }

  lemma MulLe(a: int, b: int, c: nat)
    requires a <= b
    ensures a * c <= b * c
  {
  }

  lemma MulSucc(a: int, c: nat)
    ensures (a + 1) * c == a * c + c
  {
  }

  lemma Smaller(n: nat, base: nat)
    requires 2 <= base <= n
    ensures 1 <= n / base < n && n == n / base * base + n % base && 0 <= n % base < base
  {
    DivMod(n, base);
    var q, r := n / base, n % base;
    if q < 1 {
      MulLe(q, 0, base);
    }
    MulLe(2, base, q);
    assert q * base == base * q;
  }

  /** A numeral stands for its number, uses digits of its base only, and starts with 0 only for 0. */
  lemma {:induction false} NumeralMeans(n: nat, base: nat)
    requires 2 <= base <= 16
    ensures Value(Numeral(n, base), base) == n
    ensures Numeral(n, base)[0] == '0' <==> n == 0
    ensures forall c :: c in Numeral(n, base) ==> exists d: nat :: d < base && c == Digit(d)
    decreases n
  {
    if n < base {
      DigitRoundTrip(n);
      assert Value([], base) == 0;
    } else {
      Smaller(n, base);
      var q, r := n / base, n % base;
      NumeralMeans(q, base);
      DigitRoundTrip(r);
      var s := Numeral(q, base) + [Digit(r)];
      assert s[..|s| - 1] == Numeral(q, base);
    }
  }

  // ---- Digits peeled from the low end --------------------------------------

  /** The `count` low digits of n, least significant first; n may be negative, as it is under an arithmetic shift. */
  function LowDigits(n: int, base: nat, count: nat): (s: seq<nat>)
    requires base >= 2
    ensures |s| == count
    ensures forall k :: 0 <= k < count ==> s[k] < base
    decreases count
  {
    if count == 0 then []
    else
      DivMod(n, base);
      [LowDigit(n, base)] + LowDigits(Shifted(n, base), base, count - 1)
  }

  function LowDigit(n: int, base: nat): (d: nat)
    requires base >= 2
    ensures d < base
  {
    DivMod(n, base);
    n % base
  }

  function Shifted(n: int, base: nat): int
    requires base >= 2
  {
    n / base
  }

  /** Only n modulo base^count matters. */
  lemma {:induction false} LowDigitsShift(n: int, base: nat, count: nat, k: int)
    requires base >= 2
    ensures LowDigits(n + k * Power(base, count), base, count) == LowDigits(n, base, count)
    decreases count
  {
    if count > 0 {
      var p := Power(base, count - 1);
      var m := n + k * Power(base, count);
      assert m == n + (k * p) * base by {
        assert k * (base * p) == (k * p) * base;
      }
      DivShift(n, base, k * p);
      LowDigitsShift(n / base, base, count - 1, k);
    }
  }

  lemma DivShift(n: int, base: nat, k: int)
    requires base >= 1
    ensures (n + k * base) / base == n / base + k
    ensures (n + k * base) % base == n % base
  {
    DivMod(n, base);
    var q, r := n / base, n % base;
    assert n + k * base == (q + k) * base + r;
    DivUnique(n + k * base, base, q + k, r);
  }

  lemma DivUnique(n: int, base: nat, q: int, r: int)
    requires base >= 1 && n == q * base + r && 0 <= r < base
    ensures n / base == q && n % base == r
  {
    DivMod(n, base);
    var q', r' := n / base, n % base;
    MulSucc(q', base);
    MulSucc(q, base);
    if q > q' {
      MulLe(q' + 1, q, base);
    } else if q < q' {
      MulLe(q + 1, q', base);
    }
  }

  /** Digits least significant first, written most significant first without leading zeros. */
  function Spelled(ds: seq<nat>): string
    requires ds != [] && forall k :: 0 <= k < |ds| ==> ds[k] < 16
  {
    if |ds| > 1 && ds[|ds| - 1] == 0 then Spelled(ds[..|ds| - 1]) else Spelt(ds)
  }

  /** Digits least significant first, written most significant first. */
  function Spelt(ds: seq<nat>): (s: string)
    requires forall k :: 0 <= k < |ds| ==> ds[k] < 16
    ensures |s| == |ds|
  {
    seq(|ds|, t requires 0 <= t < |ds| => Digit(ds[|ds| - 1 - t]))
  }

  lemma {:induction false} SpelledPlus(d: nat, ds: seq<nat>)
    requires d < 16 && ds != [] && forall k :: 0 <= k < |ds| ==> ds[k] < 16
    requires !AllZero(ds)
    ensures Spelled([d] + ds) == Spelled(ds) + [Digit(d)]
    decreases |ds|
  {
    var e := [d] + ds;
    if ds[|ds| - 1] == 0 {
      assert e[..|e| - 1] == [d] + ds[..|ds| - 1];
      var k :| 0 <= k < |ds| && ds[k] != 0;
      assert ds[..|ds| - 1][k] != 0;
      SpelledPlus(d, ds[..|ds| - 1]);
    } else {
      assert Spelt(e) == Spelt(ds) + [Digit(d)];
    }
  }

  lemma {:induction false} SpelledZeros(d: nat, ds: seq<nat>)
    requires d < 16 && AllZero(ds)
    ensures Spelled([d] + ds) == [Digit(d)]
    decreases |ds|
  {
    var e := [d] + ds;
    if ds != [] {
      assert e[..|e| - 1] == [d] + ds[..|ds| - 1];
      SpelledZeros(d, ds[..|ds| - 1]);
    }
  }

  predicate AllZero(ds: seq<nat>)
  {
    forall k :: 0 <= k < |ds| ==> ds[k] == 0
  }

  lemma AllZeroPlus(d: nat, ds: seq<nat>)
    ensures AllZero([d] + ds) <==> d == 0 && AllZero(ds)
  {
    var e := [d] + ds;
    assert e[0] == d && forall k :: 0 <= k < |ds| ==> e[k + 1] == ds[k];
  }

  lemma ZeroParts(n: nat, base: nat)
    requires base >= 2
    ensures Shifted(n, base) >= 0
    ensures n == 0 <==> Shifted(n, base) == 0 && LowDigit(n, base) == 0
  {
    DivMod(n, base);
    var q := n / base;
    if q < 0 {
      MulLe(q, -1, base);
    } else if q > 0 {
      MulLe(1, q, base);
    }
  }

  lemma {:induction false} LowDigitsZero(n: nat, base: nat, count: nat)
    requires base >= 2 && n < Power(base, count)
    ensures n == 0 <==> AllZero(LowDigits(n, base, count))
    decreases count
  {
    if count == 0 {
      assert Power(base, 0) == 1;
    } else {
      ZeroParts(n, base);
      Below(n, base, count);
      LowDigitsZero(Shifted(n, base), base, count - 1);
      AllZeroPlus(LowDigit(n, base), LowDigits(Shifted(n, base), base, count - 1));
      hide Shifted, LowDigit, AllZero;
    }
  }

  lemma Below(n: nat, base: nat, count: nat)
    requires base >= 2 && count > 0 && n < Power(base, count)
    ensures 0 <= Shifted(n, base) < Power(base, count - 1)
  {
    DivMod(n, base);
    var q, p := n / base, Power(base, count - 1);
    assert p * base == base * p;
    if q < 0 {
      MulLe(q, -1, base);
    } else if q >= p {
      MulLe(p, q, base);
    }
  }

  /** The digit loop followed by the search for the first nonzero digit writes the numeral. */
  lemma {:induction false} SpelledNumeral(n: nat, base: nat, count: nat)
    requires 2 <= base <= 16 && count > 0 && n < Power(base, count)
    ensures Spelled(LowDigits(n, base, count)) == Numeral(n, base)
    decreases count
  {
    var q, r := Shifted(n, base), LowDigit(n, base);
    var rest := LowDigits(q, base, count - 1);
    Below(n, base, count);
    LowDigitsZero(q, base, count - 1);
    if n < base {
      DivUnique(n, base, 0, n);
      SpelledZeros(r, rest);
    } else {
      Smaller(n, base);
      assert count > 1;
      SpelledNumeral(q, base, count - 1);
      SpelledPlus(r, rest);
    }
  }

  lemma QuotientAtLeast(n: nat, base: nat, p: nat)
    requires base >= 1 && p * base <= n
    ensures p <= n / base
  {
    DivMod(n, base);
    MulSucc(n / base, base);
    if n / base < p {
      MulLe(n / base + 1, p, base);
    }
  }

  /** The same step one digit up. */
  lemma ShiftedStep(n: nat, base: nat, p: nat, k: nat, m: nat)
    requires base >= 2 && p >= 1 && base * p <= n && m == n + k * (base * p)
    ensures base <= n <= m && p <= n / base && m / base == n / base + k * p && m % base == n % base
  {
    var c := base * p;
    MulLe(0, k, c);
    MulLe(1, p, base);
    assert c == p * base && k * c == (k * p) * base;
    QuotientAtLeast(n, base, p);
    DivShift(n, base, k * p);
  }

  /** Adding k * base^e to a number of e + 1 digits adds k to its first digit, if it stays one digit. */
  lemma {:induction false} FirstDigit(n: nat, base: nat, e: nat, k: nat, m: nat)
    requires 2 <= base <= 16 && Power(base, e) <= n && m == n + k * Power(base, e) < Power(base, e + 1)
    ensures |Numeral(n, base)| == e + 1
    ensures DigitValue(Numeral(n, base)[0]) + k < base
    ensures Numeral(m, base) == Numeral(n, base)[0 := Digit(DigitValue(Numeral(n, base)[0]) + k)]
    decreases e
  {
    if e == 0 {
      assert Power(base, 1) == base && Power(base, 0) == 1;
      DigitRoundTrip(n);
    } else {
      ShiftedStep(n, base, Power(base, e - 1), k, m);
      Below(m, base, e + 1);
      var q, q', r := n / base, m / base, n % base;
      assert Shifted(m, base) == q';
      hide Power;
      DivMod(n, base);
      FirstDigit(q, base, e - 1, k, q');
      assert Numeral(n, base) == Numeral(q, base) + [Digit(r)];
      assert Numeral(m, base) == Numeral(q', base) + [Digit(r)];
    }
  }
}
