// lib/libxc/doprnt.c: the numeric conversions %d, %u, %x and %o of _doprnt.
module Doprnt {
  import opened Numerals

  /** A conversion buffer: a NUL, then the digits ds from the low end. */
  ghost predicate Holds(temp: seq<char>, ds: seq<nat>)
  {
    && |temp| == |ds| + 1 && temp[0] == '\0'
    && forall k :: 0 <= k < |ds| ==> ds[k] < 16 && temp[k + 1] == Digit(ds[k])
  }

  /** All but `left` of the `count` low digits of num are in the buffer; n is what is left of num. */
  ghost predicate Peeled(temp: seq<char>, num: int, n: int, base: nat, count: nat, left: nat)
    requires 2 <= base <= 16
  {
    var ds := LowDigits(num, base, count);
    && left <= count && |temp| == count + 1 && temp[0] == '\0'
    && (forall k :: 0 <= k < count - left ==> temp[k + 1] == Digit(ds[k]))
    && LowDigits(n, base, left) == ds[count - left..]
  }

  lemma PeelStart(temp: seq<char>, num: int, base: nat, count: nat)
    requires 2 <= base <= 16 && |temp| == count + 1 && temp[0] == '\0'
    ensures Peeled(temp, num, num, base, count, count)
  {
  }

  /** A digit loop's step: lines 257-258, 292-293 and 327-328. */
  lemma PeelStep(temp: seq<char>, num: int, n: int, base: nat, count: nat, left: nat)
    requires 2 <= base <= 16 && Peeled(temp, num, n, base, count, left) && left > 0
    ensures Peeled(temp[count - left + 1 := Digit(n % base)], num, n / base, base, count, left - 1)
  {
    var ds := LowDigits(num, base, count);
    var rest := LowDigits(n, base, left);
    assert rest[0] == ds[count - left];
    assert rest[1..] == LowDigits(n / base, base, left - 1);
    assert rest[1..] == ds[count - left + 1..];
  }

  lemma PeelEnd(temp: seq<char>, num: int, n: int, base: nat, count: nat)
    requires 2 <= base <= 16 && Peeled(temp, num, n, base, count, 0)
    ensures Holds(temp, LowDigits(num, base, count))
  {
  }

  /** s starts with the C string w. */
  ghost predicate Reads(s: seq<char>, w: string)
  {
    |w| < |s| && s[..|w|] == w && s[|w|] == '\0'
  }

  /** The search of line 260 has come down to i without meeting a nonzero digit. */
  ghost predicate Stripped(ds: seq<nat>, i: nat)
    requires forall k :: 0 <= k < |ds| ==> ds[k] < 16
  {
    ds != [] && i <= |ds| && Spelled(ds) == Spelled(ds[..if i == 0 then 1 else i])
  }

  lemma StripStep(temp: seq<char>, ds: seq<nat>, i: nat)
    requires Holds(temp, ds) && Stripped(ds, i) && temp[i] == '0'
    ensures i > 0 && Stripped(ds, i - 1)
  {
    DigitRoundTrip(ds[i - 1]);
    assert i > 1 ==> ds[..i][..i - 1] == ds[..i - 1];
  }

  lemma StripEnd(temp: seq<char>, ds: seq<nat>, i: nat)
    requires Holds(temp, ds) && Stripped(ds, i) && temp[i] != '0'
    ensures Spelled(ds) == Spelt(ds[..if i == 0 then 1 else i])
  {
    if i > 0 {
      DigitRoundTrip(ds[i - 1]);
    }
  }

  /** What the copy loop has written is the numeral. */
  lemma Copied(temp: seq<char>, ds: seq<nat>, n: nat, s: seq<char>)
    requires Holds(temp, ds) && n <= |ds| && n < |s|
    requires forall t :: 0 <= t <= n ==> s[t] == temp[n - t]
    ensures Reads(s, Spelt(ds[..n]))
  {
    assert s[..n] == Spelt(ds[..n]);
  }

  /** Lines 260-264, 296-300 and 330-334: find the first nonzero digit and write downwards from it. */
  method CopyOut(temp: array<char>, str: array<char>, ghost ds: seq<nat>)
    requires Holds(temp[..], ds) && ds != [] && str != temp && str.Length >= temp.Length
    modifies str
    ensures Reads(str[..], Spelled(ds)) && |Spelled(ds)| < temp.Length
  {
    hide Spelled, Spelt, Digit;
    var i := temp.Length - 1;
    assert ds[..i] == ds;
    while temp[i] == '0'
      invariant 0 <= i < temp.Length
      invariant Stripped(ds, i)
      decreases i
    {
      StripStep(temp[..], ds, i);
      i := i - 1;
    }
    StripEnd(temp[..], ds, i);
    if i == 0 {
      i := i + 1;
    }
    ghost var n := i;
    var p := 0;
    while i >= 0
      invariant -1 <= i <= n && p + i == n
      invariant temp[..] == old(temp[..])
      invariant forall t :: 0 <= t < p ==> str[t] == temp[n - t]
    {
      str[p] := temp[i];
      p, i := p + 1, i - 1;
    }
    Copied(temp[..], ds, n, str[..]);
  }

  /** _prtl10, lines 250-265; line 143 leaves nothing negative. */
  method Prtl10(num: int, str: array<char>)
    requires 0 <= num < HALF && str.Length >= 11
    modifies str
    ensures Reads(str[..], Numeral(num, 10)) && |Numeral(num, 10)| <= 10
  {
    hide Peeled, Holds, Reads, Numeral, Spelled;
    var temp := new char[11];
    temp[0] := '\0';
    var n := num;
    PeelStart(temp[..], num, 10, 10);
    for i := 1 to 11
      invariant Peeled(temp[..], num, n, 10, 10, 11 - i)
      modifies temp
    {
      PeelStep(temp[..], num, n, 10, 10, 11 - i);
      temp[i] := '0' + (n % 10) as char;
      n := n / 10;
    }
    PeelEnd(temp[..], num, n, 10, 10);
    TenDigits(num);
    CopyOut(temp, str, LowDigits(num, 10, 10));
  }

  lemma TenDigits(num: nat)
    requires num < HALF
    ensures Spelled(LowDigits(num, 10, 10)) == Numeral(num, 10)
  {
    assert Power(10, 10) == 10000000000;
    SpelledNumeral(num, 10, 10);
  }

  /** _prtl16, lines 320-335; `& 0x0f` and the arithmetic shift are the Euclidean remainder and quotient by 16. */
  method Prtl16(num: int, str: array<char>)
    requires -HALF <= num < HALF && str.Length >= 9
    modifies str
    ensures Reads(str[..], Numeral(Unsigned(num), 16)) && |Numeral(Unsigned(num), 16)| <= 8
  {
    hide Peeled, Holds, Reads, Numeral, Spelled;
    var temp := new char[9];
    temp[0] := '\0';
    var n := num;
    PeelStart(temp[..], num, 16, 8);
    for i := 1 to 9
      invariant Peeled(temp[..], num, n, 16, 8, 9 - i)
      modifies temp
    {
      PeelStep(temp[..], num, n, 16, 8, 9 - i);
      temp[i] := "0123456789abcdef"[n % 16];
      n := n / 16;
    }
    PeelEnd(temp[..], num, n, 16, 8);
    EightHexDigits(num);
    CopyOut(temp, str, LowDigits(num, 16, 8));
  }

  /** Eight hexadecimal digits are exactly the 32 bits. */
  lemma EightHexDigits(num: int)
    ensures Spelled(LowDigits(num, 16, 8)) == Numeral(Unsigned(num), 16)
  {
    assert Power(16, 8) == WORD;
    LowDigitsShift(num, 16, 8, -(num / WORD));
    assert num + -(num / WORD) * Power(16, 8) == Unsigned(num);
    SpelledNumeral(Unsigned(num), 16, 8);
  }

  /** C's `&` on two characters. */
  function AndChar(a: char, b: char): char
    requires a as int < 256 && b as int < 256
  {
    ((a as int as bv8) & (b as int as bv8)) as int as char
  }

  /** `& '3'` on a digit character keeps the digit's two low bits: line 295. */
  lemma KeepTwoBits(d: nat)
    requires d < 8
    ensures Digit(d) as int < 256 && AndChar(Digit(d), '3') == Digit(d % 4)
  {
  }

  /** _prtl8, lines 285-301: the eleventh digit has only two bits of the word. */
  method Prtl8(num: int, str: array<char>)
    requires -HALF <= num < HALF && str.Length >= 12
    modifies str
    ensures Reads(str[..], Numeral(Unsigned(num), 8)) && |Numeral(Unsigned(num), 8)| <= 11
  {
    hide Peeled, Holds, Reads, Numeral, Spelled, AndChar;
    var temp := new char[12];
    temp[0] := '\0';
    var n := num;
    PeelStart(temp[..], num, 8, 11);
    for i := 1 to 12
      invariant Peeled(temp[..], num, n, 8, 11, 12 - i)
      modifies temp
    {
      PeelStep(temp[..], num, n, 8, 11, 12 - i);
      temp[i] := '0' + (n % 8) as char;
      n := n / 8;
    }
    PeelEnd(temp[..], num, n, 8, 11);
    EleventhDigit(temp[..], num);
    temp[11] := AndChar(temp[11], '3');
    ElevenOctalDigits(num);
    CopyOut(temp, str, LowDigits(Unsigned(num), 8, 11));
  }

  /** n with its `count` low digits shifted out. */
  function Remains(n: int, base: nat, count: nat): int
    requires base >= 2
    decreases count
  {
    if count == 0 then n else Remains(Shifted(n, base), base, count - 1)
  }

  lemma {:induction false} LastDigit(n: int, base: nat, count: nat)
    requires base >= 2
    ensures LowDigits(n, base, count + 1) == LowDigits(n, base, count) + [LowDigit(Remains(n, base, count), base)]
    decreases count
  {
    if count > 0 {
      LastDigit(Shifted(n, base), base, count - 1);
    }
  }

  lemma {:induction false} RemainsShift(n: int, base: nat, count: nat, k: int)
    requires base >= 2
    ensures Remains(n + k * Power(base, count), base, count) == Remains(n, base, count) + k
    decreases count
  {
    if count > 0 {
      var p := Power(base, count - 1);
      assert k * (base * p) == (k * p) * base;
      DivShift(n, base, k * p);
      RemainsShift(Shifted(n, base), base, count - 1, k);
    }
  }

  /** A number below m * base^count has a remainder below m. */
  lemma RemainsBound(n: nat, base: nat, count: nat, m: nat)
    requires base >= 2 && n < m * Power(base, count)
    ensures 0 <= Remains(n, base, count) < m
    decreases count
  {
    if count > 0 {
      var p := Power(base, count - 1);
      assert m * (base * p) == (m * p) * base;
      DivMod(n, base);
      var q := Shifted(n, base);
      if q >= m * p {
        MulLe(m * p, q, base);
      } else if q < 0 {
        MulLe(q, -1, base);
      }
      RemainsBound(q, base, count - 1, m);
    }
  }

  lemma ThirtyBits()
    ensures Power(8, 10) == 0x4000_0000
  {
  }

  lemma WordRemains(num: int)
    ensures Remains(Unsigned(num), 8, 10) == Remains(num, 8, 10) % 4
    ensures LowDigits(Unsigned(num), 8, 10) == LowDigits(num, 8, 10)
  {
    hide LowDigits, Remains, Power;
    var u, k := Unsigned(num), -(num / WORD);
    ThirtyBits();
    assert u == num + (4 * k) * Power(8, 10);
    LowDigitsShift(num, 8, 10, 4 * k);
    RemainsShift(num, 8, 10, 4 * k);
    RemainsBound(u, 8, 10, 4);
  }

  /** The eleven octal digits of the word: the signed value's, but for the top bit of the last. */
  lemma WordDigits(num: int)
    ensures LowDigits(Unsigned(num), 8, 11) == LowDigits(num, 8, 11)[10 := LowDigits(num, 8, 11)[10] % 4]
  {
    hide LowDigits, LowDigit, Remains, Power, Unsigned;
    LastDigit(Unsigned(num), 8, 10);
    LastDigit(num, 8, 10);
    WordRemains(num);
    TopDigit(Remains(num, 8, 10));
  }

  lemma TopDigit(r: int)
    ensures LowDigit(r % 4, 8) == LowDigit(r, 8) % 4
  {
    OctalDigit(r);
    OctalDigit(r % 4);
    hide LowDigit;
    FourEight(r);
  }

  lemma OctalDigit(n: int)
    ensures LowDigit(n, 8) == n % 8
  {
  }

  lemma FourEight(r: int)
    ensures r % 4 % 8 == r % 8 % 4
  {
  }

  lemma EleventhDigit(temp: seq<char>, num: int)
    requires Holds(temp, LowDigits(num, 8, 11))
    ensures |temp| == 12 && temp[11] as int < 256
    ensures Holds(temp[11 := AndChar(temp[11], '3')], LowDigits(Unsigned(num), 8, 11))
  {
    hide AndChar, LowDigits, Unsigned;
    var d := LowDigits(num, 8, 11)[10];
    assert temp[11] == Digit(d);
    KeepTwoBits(d);
    WordDigits(num);
  }

  lemma ElevenOctalDigits(num: int)
    ensures Spelled(LowDigits(Unsigned(num), 8, 11)) == Numeral(Unsigned(num), 8)
  {
    assert Power(8, 11) == 2 * WORD;
    SpelledNumeral(Unsigned(num), 8, 11);
  }

  const BILLION := 1000000000

  lemma LeadDigit(n: nat) returns (d: nat)
    ensures d < 10 && Numeral(n, 10)[0] == Digit(d) && DigitValue(Numeral(n, 10)[0]) == d && IsDigit(Numeral(n, 10)[0])
  {
    NumeralMeans(n, 10);
    hide Numeral;
    assert Numeral(n, 10)[0] in Numeral(n, 10);
    d :| d < 10 && Numeral(n, 10)[0] == Digit(d);
    DigitRoundTrip(d);
  }

  /** A word whose top bit is set, less `digit1` billions, has ten digits; the billions go back on the first. */
  lemma FirstDigitBack(u: nat, digit1: nat)
    requires u < WORD && BILLION * digit1 <= u
    requires digit1 > 0 ==> u - BILLION * digit1 >= BILLION
    ensures var w := Numeral(u - BILLION * digit1, 10);
            DigitValue(w[0]) + digit1 < 16 && Numeral(u, 10) == w[0 := Digit(DigitValue(w[0]) + digit1)]
    ensures digit1 > 0 ==> DigitValue(Numeral(u - BILLION * digit1, 10)[0]) + digit1 < 10
    ensures IsDigit(Numeral(u - BILLION * digit1, 10)[0])
  {
    hide Power, Numeral, Digit, DigitValue, IsDigit;
    Billions();
    var n := u - BILLION * digit1;
    var d := LeadDigit(n);
    if digit1 > 0 {
      FirstDigit(n, 10, 9, digit1, u);
    }
  }

  lemma Billions()
    ensures Power(10, 9) == BILLION && Power(10, 10) == 10 * BILLION
  {
  }

  lemma BillionOff(u: nat, digit1: nat, v: int)
    requires u < WORD && BILLION * digit1 <= u && v == Signed(u - BILLION * digit1)
    ensures v >= 0 ==> v == u - BILLION * digit1
    ensures v < 0 ==> u - BILLION * (digit1 + 1) >= BILLION
    ensures v < 0 ==> Signed(v - BILLION) == Signed(u - BILLION * (digit1 + 1))
  {
  }

  lemma NoneOff(arg: int)
    requires -HALF <= arg < HALF
    ensures arg == Signed(Unsigned(arg) - BILLION * 0)
  {
  }

  /** Lines 138-148: %d of a magnitude and %u of any word. */
  method ConvertDecimal(arg: int, str: array<char>)
    requires -HALF <= arg < HALF && str.Length >= 11
    modifies str
    ensures Reads(str[..], Numeral(Unsigned(arg), 10)) && |Numeral(Unsigned(arg), 10)| <= 10
  {
    hide Numeral, Signed, Unsigned;
    var v := arg;
    var digit1: nat := 0;
    ghost var u := Unsigned(arg);
    NoneOff(arg);
    while v < 0
      invariant BILLION * digit1 <= u && v == Signed(u - BILLION * digit1)
      invariant digit1 > 0 ==> u - BILLION * digit1 >= BILLION
      decreases u - BILLION * digit1
    {
      BillionOff(u, digit1, v);
      v := Signed(v - BILLION);
      digit1 := digit1 + 1;
    }
    BillionOff(u, digit1, v);
    Prtl10(v, str);
    FirstDigitBack(u, digit1);
    ghost var w := Numeral(v, 10);
    assert str[0] == w[0];
    str[0] := str[0] + digit1 as char;
    assert str[..|w|] == w[0 := str[0]];
  }

  // ---- The field: lines 201-228 --------------------------------------------

  const MAXSTR := 80

  function Fills(c: char, n: nat): (s: string)
    ensures |s| == n
  {
    seq(n, t requires 0 <= t < n => c)
  }

  /** The width asked for; out of range means none. */
  function Width(fmin: int): nat
  {
    if fmin > MAXSTR || fmin < 0 then 0 else fmin
  }

  /** The fill characters a numeral w needs. */
  function Padding(w: string, neg: bool, fmin: int): nat
  {
    var used := |w| + if neg then 1 else 0;
    if Width(fmin) > used then Width(fmin) - used else 0
  }

  /** A number in its field: blanks go before the sign, zeros after it, and left-justified fill after the digits. */
  function Field(w: string, neg: bool, leftjust: bool, fill: char, fmin: int): string
  {
    var sign := if neg then "-" else "";
    var pad := Fills(fill, Padding(w, neg, fmin));
    if leftjust then sign + w + pad
    else if fill == '0' then sign + pad + w
    else pad + sign + w
  }

  /** A field is as wide as asked, or as the number if that is wider. */
  lemma FieldWidth(w: string, neg: bool, leftjust: bool, fill: char, fmin: int)
    ensures var used := |w| + if neg then 1 else 0;
            |Field(w, neg, leftjust, fill, fmin)| == if used < fmin <= 80 then fmin else used
  {
  }

  /** The number stands on the left with its sign first, or on the right. */
  lemma FieldSides(w: string, neg: bool, leftjust: bool, fill: char, fmin: int)
    ensures var s := Field(w, neg, leftjust, fill, fmin);
      if leftjust then (if neg then "-" else "") + w <= s else |w| <= |s| && s[|s| - |w|..] == w
  {
  }

  /** Lines 219-221 and 226-228. */
  method PutFill(out: string, fill: char, leading: int) returns (r: string)
    ensures r == out + Fills(fill, if leading > 0 then leading else 0)
  {
    r := out;
    var i := 0;
    while i < leading
      invariant 0 <= i <= if leading > 0 then leading else 0
      invariant r == out + Fills(fill, i)
    {
      r := r + [fill];
      i := i + 1;
    }
  }

  /** What %d prints a minus sign for. */
  predicate Negative(f: char, arg: int)
  {
    (f == 'd' || f == 'D') && arg < 0
  }

  /** The number whose digits a conversion prints, and its base. */
  function Magnitude(f: char, arg: int): nat
  {
    if Negative(f, arg) then -arg else Unsigned(arg)
  }

  function Base(f: char): nat
  {
    if f == 'o' || f == 'O' then 8 else if f == 'x' || f == 'X' then 16 else 10
  }

  const DIGITS := "0123456789abcdef"

  /** w is n in base b, in the digits of that base and without leading zeros. */
  ghost predicate Spells(w: string, n: nat, b: nat)
    requires 2 <= b <= 16
  {
    && w != [] && Value(w, b) == n && (w[0] == '0' ==> w == "0")
    && forall c :: c in w ==> c in DIGITS[..b]
  }

  /** What each letter stands for: %o, %x and %u show the word as an unsigned number, %d its magnitude. */
  ghost predicate ShownAs(f: char, arg: int, w: string)
    requires -HALF <= arg < HALF
  {
    var u := if arg < 0 then arg + 0x1_0000_0000 else arg;
    if f in "oO" then Spells(w, u, 8) else if f in "xX" then Spells(w, u, 16) else if f in "uU" then Spells(w, u, 10)
    else Spells(w, if arg < 0 then -arg else arg, 10)
  }

  lemma DigitOf(d: nat)
    requires d < 16
    ensures DIGITS[d] == Digit(d)
  {
  }

  lemma NumeralSpells(n: nat, b: nat)
    requires 2 <= b <= 16
    ensures Spells(Numeral(n, b), n, b)
  {
    hide Digit, Value;
    NumeralMeans(n, b);
    var w := Numeral(n, b);
    forall c | c in w
      ensures c in DIGITS[..b]
    {
      var d: nat :| d < b && c == Digit(d);
      DigitOf(d);
      assert DIGITS[..b][d] == c;
    }
    if w[0] == '0' {
      ZeroNumeral(b);
    }
  }

  lemma ZeroNumeral(b: nat)
    requires 2 <= b <= 16
    ensures Numeral(0, b) == "0"
  {
  }

  /** No other string does. */
  lemma {:induction false} SpellsOnce(w: string, n: nat, b: nat)
    requires 2 <= b <= 16 && Spells(w, n, b)
    ensures w == Numeral(n, b)
    decreases |w|
  {
    var v, c := w[..|w| - 1], w[|w| - 1];
    var d := DigitBelow(c, b);
    if v == [] {
      assert w == [c] && Value(v, b) == 0;
    } else {
      assert v[0] == w[0] != '0';
      SpellsOnce(v, Value(v, b), b);
      NumeralMeans(Value(v, b), b);
      NextDigit(Value(v, b), d, b);
      assert w == v + [c];
    }
  }

  lemma DigitBelow(c: char, b: nat) returns (d: nat)
    requires 2 <= b <= 16 && c in DIGITS[..b]
    ensures d < b && c == Digit(d) && DigitValue(c) == d
  {
    d :| 0 <= d < b && DIGITS[..b][d] == c;
    DigitOf(d);
    DigitRoundTrip(d);
  }

  lemma NextDigit(q: nat, d: nat, b: nat)
    requires 2 <= b <= 16 && d < b && q >= 1
    ensures Numeral(q * b + d, b) == Numeral(q, b) + [Digit(d)]
  {
    MulLe(1, q, b);
    DivUnique(q * b + d, b, q, d);
  }

  lemma Shown(f: char, arg: int)
    requires f in "dDuUoOxX" && -HALF <= arg < HALF
    ensures ShownAs(f, arg, Numeral(Magnitude(f, arg), Base(f))) && Negative(f, arg) == (f in "dD" && arg < 0)
  {
    hide Numeral, Spells;
    NumeralSpells(Magnitude(f, arg), Base(f));
  }

  /** A numeric conversion of _doprnt, lines 104-228, with the longflag of line 96; what it hands to `func` is `out`. */
  method PrintNumber(f: char, arg: int, leftjust: bool, fill: char, fmin: int) returns (out: string)
    requires f in "dDuUoOxX" && -HALF <= arg < HALF && (fill == ' ' || fill == '0')
    ensures out == Field(Numeral(Magnitude(f, arg), Base(f)), Negative(f, arg), leftjust, fill, fmin)
    ensures exists w :: ShownAs(f, arg, w) && out == Field(w, f in "dD" && arg < 0, leftjust, fill, fmin)
  {
    hide Numeral, Field, ShownAs;
    Shown(f, arg);
    ghost var w := Numeral(Magnitude(f, arg), Base(f));
    var str := new char[20];
    var v := arg;
    var sign := '\0';
    if f == 'd' || f == 'D' {
      if v < 0 {
        sign := '-';
        v := Signed(-v);
      }
    }
    if f in "dDuU" {
      ConvertDecimal(v, str);
    } else if f in "oO" {
      Prtl8(v, str);
    } else {
      Prtl16(v, str);
    }
    assert Reads(str[..], w);
    NumeralChars(Magnitude(f, arg), Base(f));
    var length := 0;
    while str[length] != '\0'
      invariant 0 <= length <= |w|
      decreases |w| - length
    {
      length := length + 1;
    }
    out := PutField(str, length, sign, leftjust, fill, fmin, w);
  }

  lemma NumeralChars(n: nat, base: nat)
    requires 2 <= base <= 16
    ensures forall k :: 0 <= k < |Numeral(n, base)| ==> Numeral(n, base)[k] != '\0'
  {
    NumeralMeans(n, base);
    var w := Numeral(n, base);
    forall k | 0 <= k < |w|
      ensures w[k] != '\0'
    {
      assert w[k] in w;
      var d: nat :| d < base && w[k] == Digit(d);
      DigitRoundTrip(d);
    }
  }

  /** The five pieces in the order they are written. */
  lemma Assembled(w: string, neg: bool, leftjust: bool, fill: char, fmin: int)
    requires fill == ' ' || fill == '0'
    ensures var pad := Fills(fill, Padding(w, neg, fmin));
            (if neg && fill == '0' then "-" else "") + (if leftjust then "" else pad) + (if neg &&
                fill == ' ' then "-" else "")
            + w + (if leftjust then pad else "") == Field(w, neg, leftjust, fill, fmin)
  {
  }

  /** Lines 203-228. */
  method PutField(str: array<char>, length: nat, sign: char, leftjust: bool, fill: char, fmin0: int,
      ghost w: string) returns (out: string)
    requires Reads(str[..], w) && length == |w| && (fill == ' ' || fill == '0')
    ensures out == Field(w, sign == '-', leftjust, fill, fmin0)
  {
    var fmin := fmin0;
    if fmin > MAXSTR || fmin < 0 {
      fmin := 0;
    }
    var leading := 0;
    if fmin != 0 {
      leading := fmin - length;
      if sign == '-' {
        leading := leading - 1;
      }
    }
    ghost var pad := Fills(fill, Padding(w, sign == '-', fmin0));
    assert Padding(w, sign == '-', fmin0) == if leading > 0 then leading else 0;
    Assembled(w, sign == '-', leftjust, fill, fmin0);
    hide Field, Padding, Fills, Reads;
    out := "";
    if sign == '-' && fill == '0' {
      out := out + [sign];
    }
    ghost var out1 := out;
    if !leftjust {
      out := PutFill(out, fill, leading);
    }
    assert out == out1 + if leftjust then "" else pad;
    ghost var out2 := out;
    if sign == '-' && fill == ' ' {
      out := out + [sign];
    }
    assert out == out2 + if sign == '-' && fill == ' ' then "-" else "";
    out := PutString(out, str, length, w);
    ghost var out3 := out;
    if leftjust {
      out := PutFill(out, fill, leading);
    }
    assert out == out3 + if leftjust then pad else "";
  }

  /** Lines 224-225. */
  method PutString(out: string, str: array<char>, length: nat, ghost w: string) returns (r: string)
    requires Reads(str[..], w) && length == |w|
    ensures r == out + w
  {
    r := out;
    var i := 0;
    while i < length
      invariant 0 <= i <= length
      invariant r == out + w[..i]
    {
      r := r + [str[i]];
      i := i + 1;
    }
  }
}
