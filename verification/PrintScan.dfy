// What _doprnt prints, atoi and _innum read back.
module PrintScan {
  import opened Numerals
  import opened Scanning
  import Atoi
  import Doprnt
  import Doscan

  lemma {:induction false} LeadingZeros(k: nat, w: string, base: nat)
    ensures Value(Doprnt.Fills('0', k) + w, base) == Value(w, base)
    decreases |w|
  {
    var s := Doprnt.Fills('0', k) + w;
    if w == [] {
      if k > 0 {
        assert s[..|s| - 1] == Doprnt.Fills('0', k - 1) + [];
        LeadingZerosOnly(k, base);
        assert s == Doprnt.Fills('0', k);
      }
    } else {
      assert s[..|s| - 1] == Doprnt.Fills('0', k) + w[..|w| - 1];
      LeadingZeros(k, w[..|w| - 1], base);
    }
  }

  lemma {:induction false} LeadingZerosOnly(k: nat, base: nat)
    ensures Value(Doprnt.Fills('0', k), base) == 0
  {
    if k > 0 {
      var s := Doprnt.Fills('0', k);
      assert s[..|s| - 1] == Doprnt.Fills('0', k - 1);
      LeadingZerosOnly(k - 1, base);
    }
  }

  lemma Regroup(a: nat, b: nat, c: nat)
    ensures a * b * c == a * (c * b)
  {
  }

  lemma {:induction false} TrailingZeros(w: string, k: nat, base: nat)
    requires base >= 1
    ensures Value(w + Doprnt.Fills('0', k), base) == Value(w, base) * Power(base, k)
  {
    var s := w + Doprnt.Fills('0', k);
    if k == 0 {
      assert s == w;
    } else {
      var t := w + Doprnt.Fills('0', k - 1);
      assert s == t + ['0'];
      assert (t + ['0'])[..|t|] == t;
      assert Value(s, base) == Value(t, base) * base;
      TrailingZeros(w, k - 1, base);
      hide Value;
      Regroup(Value(w, base), Power(base, k - 1), base);
    }
  }

  lemma {:induction false} SkipsBlanks(k: nat, t: string, newline: bool)
    requires t != [] ==> !IsBlank(t[0], newline)
    ensures Skipped(Doprnt.Fills(' ', k) + t, newline) == t
  {
    hide Skipped;
    var s := Doprnt.Fills(' ', k) + t;
    if k > 0 {
      assert s[1..] == Doprnt.Fills(' ', k - 1) + t;
      SkipOne(s, newline);
      SkipsBlanks(k - 1, t, newline);
    } else {
      assert s == t;
      SkipNone(t, newline);
    }
  }

  predicate PrintBase(base: nat) { base == 8 || base == 10 || base == 16 }

  /** A numeral is made of characters its base accepts and starts with neither blank nor sign. */
  lemma NumeralAccepted(n: nat, base: nat)
    requires PrintBase(base)
    ensures var w := Numeral(n, base);
            && (forall k :: 0 <= k < |w| ==> Accepts(w[k], base))
            && !IsBlank(w[0], true) && w[0] != '-' && w[0] != '+'
  {
    NumeralMeans(n, base);
    var w := Numeral(n, base);
    forall k | 0 <= k < |w|
      ensures Accepts(w[k], base)
    {
      assert w[k] in w;
      var d: nat :| d < base && w[k] == Digit(d);
      DigitRoundTrip(d);
    }
    assert Accepts(w[0], base);
  }

  /** The digits and fill after the sign, and what they are worth. */
  function Tail(w: string, k: nat, leftjust: bool, fill: char): string
  {
    if leftjust then w + Doprnt.Fills(fill, k) else if fill == '0' then Doprnt.Fills(fill, k) + w else w
  }

  function Scale(k: nat, leftjust: bool, fill: char, base: nat): nat
    requires base >= 1
  {
    if leftjust && fill == '0' then Power(base, k) else 1
  }

  lemma TailMeans(n: nat, k: nat, leftjust: bool, fill: char, base: nat)
    requires PrintBase(base) && (fill == ' ' || fill == '0')
    ensures var t := Tail(Numeral(n, base), k, leftjust, fill);
            t != [] && Accepts(t[0], base) && Value(Run(t, base), base) == n * Scale(k, leftjust, fill, base)
  {
    BlankEnds(base);
    hide Numeral, Value, Run, Accepts, Power, IsDigit, IsBlank, Digit;
    var w := Numeral(n, base);
    NumeralMeans(n, base);
    NumeralAccepted(n, base);
    if fill == '0' {
      ZerosRun(w, k, leftjust, base);
      LeadingZeros(k, w, base);
      TrailingZeros(w, k, base);
    } else {
      RunIs(w, if leftjust then Doprnt.Fills(fill, k) else [], base);
      assert w + [] == w;
    }
  }

  lemma BlankEnds(base: nat)
    ensures !Accepts(' ', base)
  {
  }

  lemma ZerosRun(w: string, k: nat, leftjust: bool, base: nat)
    requires forall i :: 0 <= i < |w| ==> Accepts(w[i], base)
    ensures Run(Tail(w, k, leftjust, '0'), base) == Tail(w, k, leftjust, '0')
    ensures forall i :: 0 <= i < |Tail(w, k, leftjust, '0')| ==> Accepts(Tail(w, k, leftjust, '0')[i], base)
  {
    var t := Tail(w, k, leftjust, '0');
    hide Run;
    RunIs(t, [], base);
    assert t + [] == t;
  }

  lemma SignedTail(t: string, neg: bool, base: nat)
    requires t != [] && Accepts(t[0], base)
    ensures var v := Value(Run(t, base), base);
      Meaning((if neg then "-" else "") + t, base) == if neg then 0 - v else v
  {
    hide Value, Run;
    var s := (if neg then "-" else "") + t;
    assert neg ==> s[1..] == t;
    assert !neg ==> s == t;
  }

  /** A field is its blanks, its sign and its tail. */
  lemma FieldParts(w: string, neg: bool, leftjust: bool, fill: char, fmin: int)
    requires fill == ' ' || fill == '0'
    ensures var k := Doprnt.Padding(w, neg, fmin);
            Doprnt.Field(w, neg, leftjust, fill, fmin)
            == Doprnt.Fills(' ', if leftjust || fill == '0' then 0 else k)
               + ((if neg then "-" else "") + Tail(w, k, leftjust, fill))
  {
    hide Doprnt.Padding;
    var k, sign := Doprnt.Padding(w, neg, fmin), if neg then "-" else "";
    var pad, none := Doprnt.Fills(fill, k), Doprnt.Fills(' ', 0);
    hide Doprnt.Fills;
    assert none == "";
    if leftjust {
      assert sign + w + pad == none + (sign + (w + pad));
    } else if fill == '0' {
      assert sign + pad + w == none + (sign + (pad + w));
    } else {
      assert pad + sign + w == pad + (sign + w);
    }
  }

  /** Blanks before a number are skipped and the rest is read from the sign on. */
  lemma FieldSkips(w: string, neg: bool, leftjust: bool, fill: char, fmin: int, newline: bool)
    requires (fill == ' ' || fill == '0') && w != [] && !IsBlank(w[0], true)
    ensures Skipped(Doprnt.Field(w, neg, leftjust, fill, fmin), newline)
            == (if neg then "-" else "") + Tail(w, Doprnt.Padding(w, neg, fmin), leftjust, fill)
  {
    var k := Doprnt.Padding(w, neg, fmin);
    hide Doprnt.Padding, Skipped, Doprnt.Field;
    FieldParts(w, neg, leftjust, fill, fmin);
    var t := (if neg then "-" else "") + Tail(w, k, leftjust, fill);
    assert !IsBlank(t[0], newline);
    SkipsBlanks(if leftjust || fill == '0' then 0 else k, t, newline);
  }

  /** What a scanner makes of a printed field before it wraps: trailing zeros count. */
  lemma FieldMeans(n: nat, neg: bool, leftjust: bool, fill: char, fmin: int, base: nat, newline: bool)
    requires PrintBase(base) && (fill == ' ' || fill == '0')
    ensures var w := Numeral(n, base);
            var m := n * Scale(Doprnt.Padding(w, neg, fmin), leftjust, fill, base);
            Meaning(Skipped(Doprnt.Field(w, neg, leftjust, fill, fmin), newline), base) == if neg then 0 - m else m
  {
    var w := Numeral(n, base);
    var k := Doprnt.Padding(w, neg, fmin);
    NumeralAccepted(n, base);
    TailMeans(n, k, leftjust, fill, base);
    hide Numeral, Value, Run, Skipped, Doprnt.Field, Tail, Scale, Meaning, Doprnt.Padding;
    FieldSkips(w, neg, leftjust, fill, fmin, newline);
    SignedTail(Tail(w, k, leftjust, fill), neg, base);
  }

  lemma OddTimesOdd(a: int, b: int)
    ensures ((2 * a + 1) * (2 * b + 1)) % 2 == 1
  {
    assert (2 * a + 1) * (2 * b + 1) == 2 * (2 * (a * b) + a + b) + 1 by {
      assert (2 * a) * (2 * b) == 4 * (a * b);
    }
  }

  /** An odd factor cannot make a word vanish. */
  lemma {:induction false} OddFactor(v: int, b: int, k: int, e: nat) returns (j: int)
    requires v * (2 * b + 1) == k * Power(2, e)
    ensures v == j * Power(2, e)
    decreases e
  {
    if e == 0 {
      j := v;
    } else {
      var p := Power(2, e - 1);
      assert k * (2 * p) == 2 * (k * p);
      var a := v / 2;
      if v % 2 == 1 {
        OddTimesOdd(a, b);
        assert false;
      }
      assert v == 2 * a;
      assert (2 * a) * (2 * b + 1) == 2 * (a * (2 * b + 1));
      j := OddFactor(a, b, k, e - 1);
      assert 2 * (j * p) == j * (2 * p);
    }
  }

  lemma Spread(x: int, m: int)
    ensures x * (m + 1) - x == x * m
  {
  }

  lemma WordPower()
    ensures Power(2, 32) == WORD
  {
    assert Power(2, 8) == 0x100;
    assert Power(2, 16) == 0x1_0000;
    assert Power(2, 24) == 0x100_0000;
  }

  lemma ScaleBack(x: int, p: int, b: int)
    requires p == 2 * b + 1 + 1 && SameWord(x * p, x)
    ensures Unsigned(x) == 0
  {
    var l: int :| Apart(x * p, x, l);
    Spread(x, 2 * b + 1);
    WordPower();
    var j := OddFactor(x, b, l, 32);
    ModShift(0, j);
  }

  lemma ScaleZero(x: int, p: int)
    requires Unsigned(x) == 0
    ensures SameWord(x * p, x)
  {
    var q := x / WORD;
    assert x == q * WORD;
    assert (q * WORD) * p == (q * p) * WORD;
    assert Apart(x * p, x, q * p - q);
  }

  /** Trailing zeros change a word unless it is zero. */
  lemma ScaledWord(x: int, k: nat, base: nat)
    requires k > 0 && PrintBase(base)
    ensures SameWord(x * Power(base, k), x) <==> Unsigned(x) == 0
  {
    var h := base / 2;
    var p, b := Power(base, k), h * Power(base, k - 1) - 1;
    assert base * Power(base, k - 1) == 2 * (h * Power(base, k - 1)) by { DoubleHalf(h, base, Power(base, k - 1)); }
    PowerAtLeast(h, Power(base, k - 1));
    hide Power, Unsigned, SameWord;
    if SameWord(x * p, x) {
      ScaleBack(x, p, b);
    }
    if Unsigned(x) == 0 {
      ScaleZero(x, p);
    }
  }

  lemma DoubleHalf(h: nat, base: nat, q: nat)
    requires base == 2 * h
    ensures base * q == 2 * (h * q)
  {
  }

  lemma PowerAtLeast(h: nat, q: nat)
    requires h >= 1 && q >= 1
    ensures h * q >= 1
  {
  }

  lemma EqualSigned(x: int, y: int)
    ensures Signed(x) == Signed(y) <==> SameWord(x, y)
  {
    SignedSame(x);
    SignedSame(y);
    if Signed(x) == Signed(y) {
      SameTrans(x, Signed(x), y);
    }
    if SameWord(x, y) {
      SameSigned(x, y);
    }
  }

  /** The number printed is, with its sign, the word given. */
  lemma PrintsWord(f: char, arg: int)
    requires -HALF <= arg < HALF
    ensures var n := Doprnt.Magnitude(f, arg);
            var x := if Doprnt.Negative(f, arg) then 0 - n else n;
            Signed(x) == arg && (Unsigned(x) == 0 <==> arg == 0) && (n == 0 <==> arg == 0)
  {
  }

  lemma NegatedProduct(n: int, p: int)
    ensures (0 - n) * p == 0 - n * p
  {
  }

  /** The word printed by %d or %u is read back by atoi exactly when no zeros trail it, or when it is zero. */
  lemma DecimalReadsBack(f: char, arg: int, leftjust: bool, fill: char, fmin: int)
    requires f in "dDuU" && -HALF <= arg < HALF && (fill == ' ' || fill == '0')
    ensures var w := Numeral(Doprnt.Magnitude(f, arg), 10);
            var neg := Doprnt.Negative(f, arg);
            Signed(Meaning(Skipped(Doprnt.Field(w, neg, leftjust, fill, fmin), false), 10)) == arg
            <==> !(leftjust && fill == '0' && Doprnt.Padding(w, neg, fmin) > 0) || arg == 0
  {
    hide *;
    DecimalBase();
    FieldReads(f, arg, leftjust, fill, fmin, 10, false);
  }

  lemma BaseRange(base: nat)
    requires PrintBase(base)
    ensures 2 <= base <= 16
  {
  }

  lemma DecimalBase()
    ensures PrintBase(10)
  {
  }

  lemma FieldReads(f: char, arg: int, leftjust: bool, fill: char, fmin: int, base: nat, newline: bool)
    requires PrintBase(base) && -HALF <= arg < HALF && (fill == ' ' || fill == '0')
    ensures var w := Numeral(Doprnt.Magnitude(f, arg), base);
            var neg := Doprnt.Negative(f, arg);
            Signed(Meaning(Skipped(Doprnt.Field(w, neg, leftjust, fill, fmin), newline), base)) == arg
            <==> !(leftjust && fill == '0' && Doprnt.Padding(w, neg, fmin) > 0) || arg == 0
  {
    hide *;
    BaseRange(base);
    var n, neg := Doprnt.Magnitude(f, arg), Doprnt.Negative(f, arg);
    var k := Doprnt.Padding(Numeral(n, base), neg, fmin);
    FieldMeans(n, neg, leftjust, fill, fmin, base, newline);
    PrintsWord(f, arg);
    ScaledReads(n, neg, arg, k, leftjust, fill, base);
  }

  /** "%-02d" prints 1 as "10", which atoi reads as 10. */
  lemma TrailingZeroReads()
    ensures Doprnt.Field(Numeral(Doprnt.Magnitude('d', 1), 10), Doprnt.Negative('d', 1), true, '0', 2) == "10"
    ensures Signed(Meaning(Skipped("10", false), 10)) == 10
  {
    TenField();
    hide Value, Run, Skipped, Meaning;
    SkipNone("10", false);
    MeaningParts("10", 10);
    TenValue();
  }

  lemma TenField()
    ensures Doprnt.Field(Numeral(Doprnt.Magnitude('d', 1), 10), Doprnt.Negative('d', 1), true, '0', 2) == "10"
  {
    assert Numeral(1, 10) == "1";
    hide Numeral;
    assert "1" + Doprnt.Fills('0', 1) == "10";
  }

  lemma TenValue()
    ensures Value(Run("10", 10), 10) == 10
  {
    hide Run, Value;
    RunIs("10", "", 10);
    assert "10" + "" == "10" && "10"[..1] == "1" && "10"[..2] == "10";
    ValueStep("10", 1, 10);
    ValueStep("10", 0, 10);
    EmptyValue("10"[..0]);
  }

  lemma EmptyValue(s: string)
    requires s == ""
    ensures Value(s, 10) == 0
  {
  }

  lemma ScaledReads(n: nat, neg: bool, arg: int, k: nat, leftjust: bool, fill: char, base: nat)
    requires PrintBase(base)
    requires var x := if neg then 0 - n else n;
             Signed(x) == arg && (Unsigned(x) == 0 <==> arg == 0)
    ensures var m := n * Scale(k, leftjust, fill, base);
            Signed(if neg then 0 - m else m) == arg <==> !(leftjust && fill == '0' && k > 0) || arg == 0
  {
    var x, p := if neg then 0 - n else n, Power(base, k);
    PowerZero(base);
    if leftjust && fill == '0' && k > 0 {
      NegatedProduct(n, p);
      EqualSigned(x * p, x);
      ScaledWord(x, k, base);
    }
  }

  lemma PowerZero(base: nat)
    ensures base >= 1 ==> Power(base, 0) == 1
  {
  }

  /** The numerals of %u, %o and %x, with blanks before and anything but a digit after, are read back by _innum, which
      stops right behind them. */
  lemma NumeralScans(arg: int, base: nat, before: string, after: string, len: int)
    requires base == 8 || base == 10 || base == 16
    requires -HALF <= arg < HALF && (forall c :: c in before ==> IsBlank(c, true))
    requires (after != [] ==> !Accepts(after[0], base)) && len >= |Numeral(Unsigned(arg), base)|
    ensures var w := Numeral(Unsigned(arg), base);
            Doscan.Scanned(before + w + after, 0, base, len) == Doscan.Scan(arg, true, |w|, |before| + |w|, after == [])
  {
    hide *;
    var w := Numeral(Unsigned(arg), base);
    var s := w + after;
    NumeralMeans(Unsigned(arg), base);
    NumeralAccepted(Unsigned(arg), base);
    assert s[0] == w[0];
    SkipsAll(before, s, true);
    Behind(before, w, after);
    RunIs(w, after, base);
    UnsignedReads(arg);
    ScannedPlain(before + w + after, base, len, s, w);
  }

  lemma Behind(before: string, w: string, after: string)
    ensures (before + w + after)[0..] == before + (w + after)
  {
  }

  lemma UnsignedReads(arg: int)
    requires -HALF <= arg < HALF
    ensures Signed(Unsigned(arg)) == arg
  {
  }

  lemma ScannedPlain(text: string, base: nat, len: int, s: string, w: string)
    requires Skipped(text[0..], true) == s && s != [] && s[0] != '-' && s[0] != '+'
    requires Run(s, base) == w && w != [] && len >= |w|
    ensures Doscan.Scanned(text, 0, base, len) == Doscan.Scan(Signed(Value(w, base)), true, |w|, |text| - |s| + |w|,
        |w| == |s|)
  {
    hide Value, Run, Skipped, Signed;
  }

  lemma {:induction false} SkipsAll(before: string, s: string, newline: bool)
    requires s != [] && !IsBlank(s[0], newline) && forall c :: c in before ==> IsBlank(c, newline)
    ensures Skipped(before + s, newline) == s
  {
    if before == [] {
      assert before + s == s;
    } else {
      assert before[0] in before;
      assert (before + s)[1..] == before[1..] + s;
      SkipsAll(before[1..], s, newline);
    }
  }

  // ---- Printing and scanning with the same letter -----------------------------------

  lemma TakesAll(s: string, base: nat, len: int)
    requires len >= |s|
    ensures Doscan.Taken(s, base, len) == Run(s, base)
  {
  }

  lemma IntegerWhole(s: string, base: nat, len: int)
    requires len >= |s|
    ensures Doscan.Integer(s, base, len) == Meaning(s, base)
  {
    hide Value, Run, Doscan.Taken;
    if s != [] && (s[0] == '-' || s[0] == '+') {
      TakesAll(s[1..], base, len - 1);
    } else {
      TakesAll(s, base, len);
    }
  }

  /** With room for the whole text, _innum reads what atoi would read of it in that base. */
  lemma ScannedWhole(text: string, base: nat, len: int)
    requires len >= |text|
    ensures Doscan.Scanned(text, 0, base, len).value == Signed(Meaning(Skipped(text, true), base))
  {
    hide *;
    var s := Skipped(text, true);
    assert text[0..] == text;
    Doscan.ScannedValue(text, 0, base, len);
    IntegerWhole(s, base, len);
  }

  /** A sign or a digit is enough for something to be kept. */
  lemma KeepsSome(text: string, base: nat, len: int, neg: bool, t: string)
    requires Skipped(text, true) == (if neg then "-" else "") + t && t != [] && Accepts(t[0], base) && len >= |text|
    ensures Doscan.Scanned(text, 0, base, len).kept > 0
  {
    hide *;
    assert text[0..] == text;
    Doscan.ScannedKept(text, 0, base, len);
    if !neg {
      assert Skipped(text, true) == t;
      TakesAll(t, base, len);
      RunStarts(t, base);
    }
  }

  lemma RunStarts(t: string, base: nat)
    requires t != [] && Accepts(t[0], base)
    ensures Run(t, base) != [] && t[0] != '-' && t[0] != '+'
  {
  }

  lemma FieldKept(n: nat, neg: bool, leftjust: bool, fill: char, fmin: int, base: nat)
    requires PrintBase(base) && (fill == ' ' || fill == '0')
    ensures var out := Doprnt.Field(Numeral(n, base), neg, leftjust, fill, fmin);
      Doscan.Scanned(out, 0, base, |out|).kept > 0
  {
    hide *;
    BaseRange(base);
    var w := Numeral(n, base);
    var k := Doprnt.Padding(w, neg, fmin);
    NumeralAccepted(n, base);
    FieldSkips(w, neg, leftjust, fill, fmin, true);
    TailMeans(n, k, leftjust, fill, base);
    var out := Doprnt.Field(w, neg, leftjust, fill, fmin);
    KeepsSome(out, base, |out|, neg, Tail(w, k, leftjust, fill));
  }

  lemma SameBase(f: char)
    requires f in "duox"
    ensures Doprnt.Base(f) == Doscan.BaseOf(f) && PrintBase(Doprnt.Base(f)) && f in "dDuUoOxX"
  {
  }

  /** A word printed with %d, %u, %o or %x and scanned with the same letter comes back, unless zeros were filled in on
      the right of a number other than 0. */
  method PrintThenScan(f: char, arg: int, leftjust: bool, fill: char, fmin: int)
    returns (out: string, ghost w: string, stored: Doscan.Stored)
    requires f in "duox" && -HALF <= arg < HALF && (fill == ' ' || fill == '0')
    ensures Doprnt.ShownAs(f, arg, w) && out == Doprnt.Field(w, f == 'd' && arg < 0, leftjust, fill, fmin)
    ensures stored == Doscan.Number(arg) <==>
      !(leftjust && fill == '0' && |w| + (if f == 'd' && arg < 0 then 1 else 0) < fmin <= 80) || arg == 0
  {
    hide Doprnt.Field, Doprnt.ShownAs, Doprnt.Magnitude, Doprnt.Base, Doscan.BaseOf, Numeral, Skipped, Meaning, Signed,
      Doscan.Scanned, PrintBase, Doscan.Integer, Doscan.Residue;
    SameBase(f);
    ghost var n, neg, base := Doprnt.Magnitude(f, arg), Doprnt.Negative(f, arg), Doprnt.Base(f);
    BaseRange(base);
    w := Numeral(n, base);
    Doprnt.Shown(f, arg);
    out := Doprnt.PrintNumber(f, arg, leftjust, fill, fmin);
    FieldReads(f, arg, leftjust, fill, fmin, base, true);
    FieldKept(n, neg, leftjust, fill, fmin, base);
    ScannedWhole(out, base, |out|);
    var r: Doscan.Scan, ret: int;
    r, ret, stored := Doscan.InNum(f, out, 0, |out|, true, Doscan.REGULAR);
  }

  /** The word %d or %u prints, read by atoi: the same exception. */
  method PrintThenAtoi(f: char, arg: int, leftjust: bool, fill: char, fmin: int)
    returns (out: string, ghost w: string, r: int)
    requires f in "dDuU" && -HALF <= arg < HALF && (fill == ' ' || fill == '0')
    ensures Doprnt.ShownAs(f, arg, w) && out == Doprnt.Field(w, f in "dD" && arg < 0, leftjust, fill, fmin)
    ensures r == arg <==>
      !(leftjust && fill == '0' && |w| + (if f in "dD" && arg < 0 then 1 else 0) < fmin <= 80) || arg == 0
  {
    hide Doprnt.Field, Doprnt.ShownAs, Doprnt.Magnitude, Numeral, Skipped, Meaning, Signed, PrintBase;
    w := Numeral(Doprnt.Magnitude(f, arg), 10);
    Doprnt.Shown(f, arg);
    out := Doprnt.PrintNumber(f, arg, leftjust, fill, fmin);
    DecimalReadsBack(f, arg, leftjust, fill, fmin);
    r := Atoi.Atoi(out);
  }

  /** A sign before a numeral counts, in every base; a second one does not. */
  lemma SignedNumeral(n: nat, base: nat, after: string)
    requires PrintBase(base) && (after != [] ==> !Accepts(after[0], base))
    ensures var s := Numeral(n, base) + after;
      Meaning(s, base) == Meaning("+" + s, base) == n && Meaning("-" + s, base) == 0 - n
    ensures Meaning("+-" + Numeral(n, base), base) == Meaning("-+" + Numeral(n, base), base) == 0
  {
    hide Value, Run, Numeral, Accepts;
    var w := Numeral(n, base);
    NumeralMeans(n, base);
    NumeralAccepted(n, base);
    RunIs(w, after, base);
    var s := w + after;
    assert s[0] == w[0] && ("+" + s)[1..] == s && ("-" + s)[1..] == s;
    NoRun('-', w, base);
    NoRun('+', w, base);
    assert ("+-" + w)[1..] == "-" + w && ("-+" + w)[1..] == "+" + w;
  }

  lemma NoRun(c: char, w: string, base: nat)
    requires c == '-' || c == '+'
    ensures Value(Run([c] + w, base), base) == 0
  {
  }

  /** Blanks, a sign or none, a numeral, and anything but a digit behind it. */
  lemma NumberReads(before: string, sign: string, n: nat, after: string, base: nat, newline: bool)
    requires PrintBase(base) && sign in {"", "+", "-"} && (after != [] ==> !Accepts(after[0], base))
    requires forall c :: c in before ==> IsBlank(c, newline)
    ensures Meaning(Skipped(before + (sign + (Numeral(n, base) + after)), newline), base)
      == if sign == "-" then 0 - n else n
  {
    hide Value, Run, Numeral, Accepts, Meaning, Skipped;
    NumeralAccepted(n, base);
    SignedNumeral(n, base, after);
    var s := Numeral(n, base) + after;
    assert "" + s == s;
    assert !IsBlank((sign + s)[0], newline);
    SkipsAll(before, sign + s, newline);
  }
}
