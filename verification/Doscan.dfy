// lib/libxc/doscan.c: _innum, lines 138-204.
module Doscan {
  import opened Numerals
  import opened Scanning

  const EOF := -1

  /** getch: the character at pos, or EOF. */
  function Getch(text: string, pos: nat): int
  {
    if pos < |text| then text[pos] as int else EOF
  }

  /** The digits the loop of line 157 takes: no more than the width allows. */
  function Taken(s: string, base: nat, len: int): (w: string)
    ensures |w| <= |s| && s[..|w|] == w
  {
    var w := Run(s, base);
    if len < 0 then [] else if |w| <= len then w else w[..len]
  }

  /** The integer that an optional sign and digits stand for, at most `len` characters in all. */
  function Integer(s: string, base: nat, len: int): int
  {
    if s != [] && s[0] == '-' then 0 - Value(Taken(s[1..], base, len - 1), base)
    else if s != [] && s[0] == '+' then Value(Taken(s[1..], base, len - 1), base)
    else Value(Taken(s, base, len), base)
  }

  /** What _innum leaves: the value stored, whether anything was, the characters kept in numbuf, the reading place,
      and the end mark. */
  datatype Scan = Scan(value: int, matched: bool, kept: nat, pos: nat, ended: bool)

  /** An optional sign and at most `len` characters of digits, from the first character that is not a blank. */
  function Scanned(text: string, from: nat, base: nat, len: int): Scan
    requires from <= |text|
  {
    var s := Skipped(text[from..], true);
    var signed := s != [] && (s[0] == '-' || s[0] == '+');
    var neg := s != [] && s[0] == '-';
    var w := if signed then Taken(s[1..], base, len - 1) else Taken(s, base, len);
    var used := |w| + if signed then 1 else 0;
    Scan(Signed(Integer(s, base, len)),
         w != [] || neg,
         |w| + (if neg then 1 else 0),
         |text| - |s| + used,
         used == |s|)
  }

  /** Line 157's loop: up to `len` digits, shifted and added modulo 2^32; c is the character after them. */
  method TakeDigits(text: string, from: nat, base: nat, len0: int) returns (lcval: int, kept: nat, pos: nat)
    requires from <= |text| && (base == 8 || base == 10 || base == 16)
    ensures var w := Taken(text[from..], base, len0);
            lcval == Signed(Value(w, base)) && kept == |w| && pos == from + |w|
  {
    hide Value, Run, Signed, DigitValue;
    pos := from;
    kept := 0;
    lcval := 0;
    var len := len0;
    ghost var w := Taken(text[from..], base, len0);
    TakenStops(text[from..], base, len0);
    assert forall k :: 0 <= k < |w| ==> w[k] == text[from..][k] == text[from + k];
    NoValue(w, base);
    while true
      invariant kept <= |w| && pos == from + kept && len == len0 - kept
      invariant lcval == Signed(Value(w[..kept], base))
      decreases |w| - kept
    {
      len := len - 1;
      if !(len >= 0) {
        break;
      }
      var c := Getch(text, pos);
      if c == EOF || !Accepts(c as char, base) {
        break;
      }
      Shift(w, kept, base, lcval);
      DigitIs(c as char);
      lcval := Signed(lcval * base);
      var d := c;
      if '0' as int <= c <= '9' as int {
        d := d - '0' as int;
      } else if 'a' as int <= c <= 'f' as int {
        d := d - ('a' as int - 10);
      } else {
        d := d - ('A' as int - 10);
      }
      lcval := Signed(lcval + d);
      kept := kept + 1;
      pos := pos + 1;
    }
    assert w[..kept] == w;
  }

  /** Lines 167-173. */
  lemma DigitIs(c: char)
    requires Accepts(c, 8) || Accepts(c, 10) || Accepts(c, 16)
    ensures DigitValue(c) == if '0' <= c <= '9' then c as int - '0' as int
      else if 'a' <= c <= 'f' then c as int - ('a' as int - 10) else c as int - ('A' as int - 10)
  {
  }

  lemma NoValue(w: string, base: nat)
    ensures Signed(Value(w[..0], base)) == 0
  {
  }

  /** The digits taken end where the width, the text or the digits do. */
  lemma TakenStops(s: string, base: nat, len: int)
    ensures var w := Taken(s, base, len);
            && (forall k :: 0 <= k < |w| ==> Accepts(w[k], base))
            && |w| <= (if len < 0 then 0 else len)
            && (|w| < |s| && |w| < len ==> !Accepts(s[|w|], base))
  {
  }

  /** Lines 161-174 wrap after the shift and after the sum, which changes nothing. */
  lemma Shift(w: string, k: nat, base: nat, n: int)
    requires k < |w| && n == Signed(Value(w[..k], base))
    ensures Signed(Signed(n * base) + DigitValue(w[k])) == Signed(Value(w[..k + 1], base))
  {
    var v, d := Value(w[..k], base), DigitValue(w[k]);
    ValueStep(w, k, base);
    SignedSame(v);
    SignedSame(n * base);
    SameStep(n, v, base, d);
    SameStep(Signed(n * base), n * base, 1, d);
    SameTrans(Signed(n * base) + d, n * base + d, v * base + d);
    SameSigned(Signed(n * base) + d, v * base + d);
  }

  /** Line 147. */
  method SkipBlanks(text: string, from: nat) returns (pos: nat)
    requires from <= |text|
    ensures from <= pos <= |text| && Skipped(text[from..], true) == text[pos..]
  {
    hide Skipped;
    pos := from;
    while pos < |text| && IsBlank(text[pos], true)
      invariant from <= pos <= |text|
      invariant Skipped(text[from..], true) == Skipped(text[pos..], true)
    {
      SkipOne(text[pos..], true);
      assert text[pos..][1..] == text[pos + 1..];
      pos := pos + 1;
    }
    SkipNone(text[pos..], true);
  }

  function BaseOf(kind: char): nat
  {
    if kind == 'o' then 8 else if kind == 'x' then 16 else 10
  }

  /** Lines 182-186: the character after the digits goes back, unless the text has ended. */
  method AtEnd(text: string, pos: nat) returns (ended: bool)
    requires pos <= |text|
    ensures ended <==> pos == |text|
  {
    ended := Getch(text, pos) == EOF;
  }

  /** Lines 148-156. */
  method TakeSign(text: string, start: nat, len0: int) returns (pos: nat, len: int, negative: bool, kept: nat)
    requires start <= |text|
    ensures negative <==> start < |text| && text[start] == '-'
    ensures pos == start + if start < |text| && (text[start] == '-' || text[start] == '+') then 1 else 0
    ensures len == len0 - (pos - start) && kept == if negative then 1 else 0
  {
    pos, len, negative, kept := start, len0, false, 0;
    if pos < |text| && text[pos] == '-' {
      negative := true;
      kept := kept + 1;
      pos := pos + 1;
      len := len - 1;
    } else if pos < |text| && text[pos] == '+' {
      len := len - 1;
      pos := pos + 1;
    }
  }

  /** The parts of a scan: blanks up to start, the sign if pos is past it, and the digits from pos. */
  lemma ScannedParts(text: string, from: nat, base: nat, len0: int, start: nat, pos: nat, negative: bool)
    requires from <= start <= pos <= |text| && Skipped(text[from..], true) == text[start..]
    requires negative <==> start < |text| && text[start] == '-'
    requires pos == start + if start < |text| && (text[start] == '-' || text[start] == '+') then 1 else 0
    ensures var w := Taken(text[pos..], base, len0 - (pos - start));
            Scanned(text, from, base, len0)
            == Scan(Signed(if negative then 0 - Value(w, base) else Value(w, base)), w != [] || negative,
                    |w| + (if negative then 1 else 0), pos + |w|, pos + |w| == |text|)
  {
    hide Value, Run, Signed, Taken, Skipped;
    var s := text[start..];
    assert s != [] ==> s[0] == text[start];
    assert pos > start ==> text[pos..] == s[1..];
  }

  /** What the caller gave to store the number in: lines 187-204. */
  datatype Size = SHORT | REGULAR | LONG

  datatype Stored = Nothing | Number(n: int)

  /** A 32-bit word cut down to a short. */
  function Short(x: int): (r: int)
    ensures -0x8000 <= r < 0x8000
  {
    (x + 0x8000) % 0x1_0000 - 0x8000
  }

  /** Only an integer that was matched is stored, and only if there is a place for it. */
  function Kept(r: Scan, place: bool, size: Size): Stored
  {
    if !place || r.kept == 0 then Nothing else Number(if size == SHORT then Short(r.value) else r.value)
  }

  /** n is the number between -m/2 and m/2 that is x modulo m. */
  ghost predicate Residue(x: int, n: int, m: nat)
  {
    0 <= 2 * n + m < 2 * m && exists k: int :: Off(x, n, k, m)
  }

  predicate Off(x: int, n: int, k: int, m: nat)
  {
    x - n == k * m
  }

  /** There is only one. */
  lemma ResidueOnce(x: int, n: int, n': int, m: nat)
    requires Residue(x, n, m) && Residue(x, n', m)
    ensures n == n'
  {
    var k: int :| Off(x, n, k, m);
    var k': int :| Off(x, n', k', m);
    if k < k' {
      MulLe(k + 1, k', m);
      MulSucc(k, m);
    } else if k' < k {
      MulLe(k' + 1, k, m);
      MulSucc(k', m);
    }
  }

  /** A long gets the integer scanned modulo 2^32. */
  lemma LongMeans(x: int)
    ensures Residue(x, Signed(x), 0x1_0000_0000)
  {
    assert Off(x, Signed(x), (x + HALF) / WORD, 0x1_0000_0000);
  }

  /** A short gets it modulo 2^16, from the value modulo 2^32 as from the integer itself. */
  lemma ShortMeans(x: int)
    ensures Residue(x, Short(Signed(x)), 0x1_0000) && Residue(x, Short(x), 0x1_0000)
  {
    assert Off(x, Short(x), (x + 0x8000) / 0x1_0000, 0x1_0000);
    SignedSame(x);
    var k: int :| Apart(Signed(x), x, k);
    ShortShift(x, 0x1_0000 * k);
  }

  lemma ShortShift(x: int, j: int)
    ensures Short(x + j * 0x1_0000) == Short(x)
  {
  }

  /** _innum for 'd', 'u', 'o' and 'x'; the value returned tells whether an integer was stored. */
  method InNum(kind: char, text: string, from: nat, len0: int, place: bool, size: Size)
    returns (r: Scan, ret: int, stored: Stored)
    requires from <= |text|
    ensures r == Scanned(text, from, BaseOf(kind), len0)
    ensures ret == (if stored.Nothing? then 0 else 1) && stored == Kept(r, place, size)
    ensures stored.Number? ==>
      Residue(Integer(Skipped(text[from..], true), if kind == 'o' then 8 else if kind == 'x' then 16 else 10, len0),
              stored.n, if size == SHORT then 0x1_0000 else 0x1_0000_0000)
  {
    hide Scanned, BaseOf, Short, Integer, Residue, Skipped, Signed;
    r := ReadNumber(kind, text, from, len0);
    BaseIs(kind);
    ScannedValue(text, from, BaseOf(kind), len0);
    LongMeans(Integer(Skipped(text[from..], true), BaseOf(kind), len0));
    ShortMeans(Integer(Skipped(text[from..], true), BaseOf(kind), len0));
    if !place || r.kept == 0 {
      return r, 0, Nothing;
    }
    ret := 1;
    match size
    case SHORT => stored := Number(Short(r.value));
    case REGULAR => stored := Number(r.value);
    case LONG => stored := Number(r.value);
  }

  lemma ScannedValue(text: string, from: nat, base: nat, len: int)
    requires from <= |text|
    ensures Scanned(text, from, base, len).value == Signed(Integer(Skipped(text[from..], true), base, len))
  {
    hide Integer, Skipped, Taken, Signed;
  }

  /** Nothing is kept without a digit, but for a minus sign, which counts by itself. */
  lemma ScannedKept(text: string, from: nat, base: nat, len: int)
    requires from <= |text|
    ensures var s := Skipped(text[from..], true);
      Scanned(text, from, base, len).kept == 0 <==>
        s == [] || (s[0] == '+' && Taken(s[1..], base, len - 1) == []) ||
        (s[0] != '-' && s[0] != '+' && Taken(s, base, len) == [])
  {
    hide Integer, Skipped, Taken, Signed;
  }

  lemma BaseIs(kind: char)
    ensures BaseOf(kind) == if kind == 'o' then 8 else if kind == 'x' then 16 else 10
  {
  }

  /** Lines 138-190. */
  method ReadNumber(kind: char, text: string, from: nat, len0: int) returns (r: Scan)
    requires from <= |text|
    ensures r == Scanned(text, from, BaseOf(kind), len0)
  {
    hide *;
    BaseIs(kind);
    var base: nat := 10;
    if kind == 'o' {
      base := 8;
    } else if kind == 'x' {
      base := 16;
    }
    var pos: nat := SkipBlanks(text, from);
    ghost var start := pos;
    var len: int, negative: bool, kept: nat;
    pos, len, negative, kept := TakeSign(text, pos, len0);
    ScannedParts(text, from, base, len0, start, pos, negative);
    var lcval, more, end := TakeDigits(text, pos, base, len);
    NegateSigned(Value(Taken(text[pos..], base, len), base));
    if negative {
      lcval := Signed(-lcval);
    }
    var ended := AtEnd(text, end);
    r := Scan(lcval, kept + more != 0, kept + more, end, ended);
  }
}
