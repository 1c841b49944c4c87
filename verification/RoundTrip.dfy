// What a compressor writes (Deflate), the decoder's reference (InflateSpec) and
// so inflate() read back.
module RoundTrip {
  import opened Bits
  import opened Canonical
  import opened HuftTables
  import opened HuftLoop
  import opened HuftCounts
  import opened FixedTrees
  import opened Window
  import opened Deflate
  import opened Decoder
  import opened Crc
  import InflateBlocks
  import Spec = InflateSpec

  // ---- Numbers --------------------------------------------------------------------

  lemma {:induction false} MsbOfWord(n: nat, k: nat)
    requires n < Pow2(k)
    ensures Msb(WordBits(n, k)) == n
  {
    if k > 0 {
      MsbOfWord(n / 2, k - 1);
      MsbAppend(WordBits(n / 2, k - 1), n % 2 == 1);
    }
  }

  /** Bits in front are taken off again. */
  lemma Front(s: seq<bool>, t: seq<bool>)
    ensures |s + t| == |s| + |t| && (s + t)[..|s|] == s && (s + t)[|s|..] == t
  {
  }

  lemma NumberFront(n: nat, k: nat, t: seq<bool>)
    requires n < Pow2(k)
    ensures var b := ToBits(n, k) + t; |b| == k + |t| && Lsb(b[..k]) == n && b[k..] == t
  {
    Front(ToBits(n, k), t);
    LsbOfToBits(n, k);
  }

  // ---- Code words -------------------------------------------------------------------

  /** With at most the whole code space in use, every code number fits its length. */
  lemma RoomFor(lens: seq<nat>, k: nat)
    requires ValidLengths(lens) && KraftSum(lens) <= Pow2(BMAX) && 1 <= k <= BMAX
    ensures First(Counts(lens), k) + CountOf(lens, k) <= Pow2(k)
  {
    hide First, Pow2, CountOf;
    var c := Counts(lens);
    KraftIsWeight(lens);
    WeightIsEnd(c, BMAX);
    EndMonotone(c, k, BMAX, BMAX);
    Pow2Add(k, BMAX - k);
    MulCancel(First(c, k) + c[k], Pow2(k), Pow2(BMAX - k));
  }

  /** A symbol's code word, whatever follows it, is read as that symbol. */
  lemma SymbolReads(lens: seq<nat>, sym: nat, rest: seq<bool>)
    requires ValidLengths(lens) && KraftSum(lens) <= Pow2(BMAX) && Has(lens, sym)
    ensures Spec.ReadSymbol(lens, BookOf(lens)(sym) + rest) == Spec.Ok(sym, rest)
  {
    hide First, Pow2, CountOf, Nth, Decode, KraftSum;
    var k := lens[sym];
    var r, w := CountOf(lens[..sym], k), BookOf(lens)(sym);
    var s := w + rest;
    CountPrefix(lens, sym, k);
    RoomFor(lens, k);
    MsbOfWord(CodeOf(lens, sym), k);
    Front(w, rest);
    assert CodeAt(Counts(lens), k, r, s);
    FindsIt(lens, sym, k, r, s);
  }

  lemma FindsIt(lens: seq<nat>, sym: nat, k: nat, r: nat, s: seq<bool>)
    requires ValidLengths(lens) && sym < |lens| && lens[sym] == k && r == CountOf(lens[..sym], k)
    requires CodeAt(Counts(lens), k, r, s)
    ensures Decode(lens, s) == Symbol(sym, k)
  {
    hide First, Pow2, CountOf, Nth;
    DecodeFinds(lens, k, r, s, 1);
    NthUnique(lens, sym, Nth(lens, k, r));
  }

  /** The books a decoder with these lengths understands. */
  ghost predicate Speaks(lens: seq<nat>, w: Book)
  {
    ValidLengths(lens) && forall sym: nat, rest {:trigger w(sym) + rest} :: Has(lens, sym) ==>
      Spec.ReadSymbol(lens, w(sym) + rest) == Spec.Ok(sym, rest)
  }

  lemma BookSpeaks(lens: seq<nat>)
    requires Usable(lens)
    ensures Speaks(lens, BookOf(lens))
  {
    hide Spec.ReadSymbol, KraftSum, BookOf, Pow2;
    forall sym: nat, rest: seq<bool> | Has(lens, sym)
      ensures Spec.ReadSymbol(lens, BookOf(lens)(sym) + rest) == Spec.Ok(sym, rest)
    {
      SymbolReads(lens, sym, rest);
    }
  }

  /** A symbol and its extra bits. */
  lemma CodeReads(lens: seq<nat>, w: Book, c: Code, rest: seq<bool>)
    requires Speaks(lens, w) && Has(lens, c.sym) && c.extra < Pow2(c.k)
    ensures var b := ToBits(c.extra, c.k) + rest;
      && Spec.ReadSymbol(lens, CodeBits(w, c) + rest) == Spec.Ok(c.sym, b)
      && |b| >= c.k && Lsb(b[..c.k]) == c.extra && b[c.k..] == rest
  {
    hide Spec.ReadSymbol, Pow2, Lsb, ToBits;
    NumberFront(c.extra, c.k, rest);
    assert CodeBits(w, c) + rest == w(c.sym) + (ToBits(c.extra, c.k) + rest);
  }

  // ---- The tables of lengths and distances: section 3.2.5 ------------------------------

  lemma {:induction false} Log2Bounds(x: nat)
    requires x >= 1
    ensures Pow2(Log2(x)) <= x < 2 * Pow2(Log2(x))
  {
    if x >= 2 {
      Log2Bounds(x / 2);
    }
  }

  lemma Log2Is(x: nat, h: nat)
    requires Pow2(h) <= x < 2 * Pow2(h)
    ensures Log2(x) == h
  {
    hide Log2;
    Log2Bounds(x);
    NoLower(x, h, Log2(x));
    NoLower(x, Log2(x), h);
  }

  lemma NoLower(x: nat, a: nat, b: nat)
    requires Pow2(a) <= x < 2 * Pow2(b)
    ensures a <= b
  {
    if b < a {
      DoublePow(b);
      Pow2Monotone(b + 1, a);
    }
  }

  lemma SmallPowers()
    ensures Pow2(0) == 1 && Pow2(1) == 2 && Pow2(2) == 4 && Pow2(3) == 8 && Pow2(4) == 16 && Pow2(5) == 32
    ensures Pow2(6) == 64 && Pow2(7) == 128 && Pow2(8) == 256 && Pow2(9) == 512 && Pow2(10) == 1024
    ensures Pow2(11) == 2048 && Pow2(12) == 4096 && Pow2(13) == 8192 && Pow2(14) == 16384 && Pow2(15) == 32768
  {
    assert Pow2(5) == 32;
    assert Pow2(10) == 1024;
  }

  /** Four symbols to each number of extra bits, each starting where the one before ends. */
  lemma LengthsTile(i: nat)
    requires i < 28
    ensures Spec.CPLENS[0] == 3 && Spec.CPLENS[28] == 258 && Spec.CPLEXT[28] == 0
    ensures Spec.CPLEXT[i] == if i < 8 then 0 else (i - 4) / 4
    ensures i < 27 ==> Spec.CPLENS[i + 1] == Spec.CPLENS[i] + Pow2(Spec.CPLEXT[i])
  {
    SmallPowers();
    hide Pow2;
  }

  /** Two symbols to each number of extra bits. */
  lemma DistancesTile(i: nat)
    requires i < 30
    ensures Spec.CPDIST[0] == 1
    ensures Spec.CPDEXT[i] == if i < 2 then 0 else (i - 2) / 2
    ensures i < 29 ==> Spec.CPDIST[i + 1] == Spec.CPDIST[i] + Pow2(Spec.CPDEXT[i])
  {
    SmallPowers();
    hide Pow2;
  }

  /** x is q units of 2^e and r more. */
  ghost predicate Split(x: int, q: nat, e: nat, r: nat)
  {
    r < Pow2(e) && x == q * Pow2(e) + r
  }

  lemma SplitIs(x: nat, e: nat)
    ensures Split(x, Upper(x, e), e, Lower(x, e))
  {
    DivModIs(x, Pow2(e));
  }

  lemma SplitOnce(x: nat, q: nat, e: nat, r: nat)
    requires Split(x, q, e, r)
    ensures Upper(x, e) == q && Lower(x, e) == r
  {
    DivModUnique(x, Pow2(e), q, r);
  }

  /** With h + 1 binary digits in q there are h + e + 1 in all. */
  lemma SplitLog(x: nat, q: nat, e: nat, r: nat, h: nat)
    requires Split(x, q, e, r) && Pow2(h) <= q < 2 * Pow2(h)
    ensures Log2(x) == h + e
  {
    hide Pow2, Log2;
    Pow2Add(h, e);
    MulLe(Pow2(h), q, Pow2(e));
    MulLe(q + 1, 2 * Pow2(h), Pow2(e));
    Distribute(q, 1, Pow2(e));
    Double(Pow2(h), Pow2(e));
    Log2Is(x, h + e);
  }

  lemma LogSplit(x: nat, q: nat, e: nat, r: nat, h: nat)
    requires x >= 1 && Split(x, q, e, r) && Log2(x) == h + e
    ensures Pow2(h) <= q < 2 * Pow2(h)
  {
    hide Pow2, Log2;
    Log2Bounds(x);
    Pow2Add(h, e);
    Double(Pow2(h), Pow2(e));
    Distribute(q, 1, Pow2(e));
    if q < Pow2(h) {
      MulLe(q + 1, Pow2(h), Pow2(e));
    }
    if 2 * Pow2(h) <= q {
      MulLe(2 * Pow2(h), q, Pow2(e));
    }
  }

  lemma LogAtMost(x: nat, h: nat)
    requires 1 <= x < Pow2(h)
    ensures Log2(x) < h
  {
    hide Pow2, Log2;
    Log2Bounds(x);
    if h <= Log2(x) {
      Pow2Monotone(h, Log2(x));
    }
  }

  lemma LogAtLeast(x: nat, h: nat)
    requires 1 <= x && Pow2(h) <= x
    ensures h <= Log2(x)
  {
    hide Pow2, Log2;
    Log2Bounds(x);
    NoLower(x, h, Log2(x));
  }

  lemma LengthEntry(i: nat)
    requires 4 <= i < 28
    ensures Spec.CPLEXT[i] == (i - 4) / 4
    ensures var u := Pow2((i - 4) / 4);
      Spec.CPLENS[i] == 3 + if i % 4 == 0 then 4 * u else if i % 4 == 1 then 5 * u
        else if i % 4 == 2 then 6 * u else 7 * u
  {
    SmallPowers();
    hide Pow2;
    if i < 12 {
    } else if i < 20 {
    } else {
    }
  }

  /** The symbol with q units of 2^e: the first length is 3. */
  lemma LengthTable(i: nat, e: nat, q: nat)
    requires 4 <= i < 28 && e == (i - 4) / 4 && q == 4 + i % 4
    ensures Spec.CPLEXT[i] == e && Spec.CPLENS[i] == 3 + q * Pow2(e)
  {
    hide Pow2, Spec.CPLENS, Spec.CPLEXT;
    LengthEntry(i);
    Products(q, Pow2(e));
  }

  lemma Products(q: nat, u: nat)
    requires 2 <= q < 8
    ensures q * u == if q == 2 then 2 * u else if q == 3 then 3 * u else if q == 4 then 4 * u
      else if q == 5 then 5 * u else if q == 6 then 6 * u else 7 * u
  {
  }

  lemma Quarter(e: nat, q: nat)
    requires 4 <= q < 8
    ensures (4 * e + q - 4) / 4 == e && 4 + (4 * e + q) % 4 == q
  {
  }

  lemma Half(e: nat, q: nat)
    requires 2 <= q < 4
    ensures (2 * e + q - 2) / 2 == e && 2 + (2 * e + q) % 2 == q
  {
  }

  lemma LengthIs(len: nat, q: nat, e: nat, r: nat)
    requires 7 <= len < 258 && Split(len - 3, q, e, r) && 4 <= q < 8
    ensures LengthCode(len) == Code(257 + 4 * e + q, r, e)
  {
    PowTwo();
    hide Log2, Pow2, Upper, Lower;
    SplitLog(len - 3, q, e, r, 2);
    SplitOnce(len - 3, q, e, r);
  }

  lemma PowTwo()
    ensures Pow2(0) == 1 && Pow2(1) == 2 && Pow2(2) == 4
  {
  }

  /** Every length but 258 has exactly one symbol and extra value among 257 to 284; 258 is symbol 285, or the last of
      284. */
  lemma LengthCoded(i: nat, r: nat)
    requires i < 28 && r < Pow2(Spec.CPLEXT[i])
    ensures var len := Spec.CPLENS[i] + r;
      && 3 <= len <= 258 && (len == 258 <==> i == 27 && r == 31)
      && (len != 258 ==> LengthCode(len) == Code(257 + i, r, Spec.CPLEXT[i]))
  {
    hide LengthCode, Pow2, Spec.CPLENS, Spec.CPLEXT;
    LengthsEnd(i, r);
    if i < 4 {
      NearLength(i, r);
    } else {
      var e, q := (i - 4) / 4, 4 + i % 4;
      LengthTable(i, e, q);
      var len := Spec.CPLENS[i] + r;
      if len < 258 {
        LengthIs(len, q, e, r) by {
          OverThree(len - 3, q, e, r);
        }
      }
    }
  }

  lemma OverThree(x: nat, q: nat, e: nat, r: nat)
    requires 4 <= q && r < Pow2(e) && x == q * Pow2(e) + r
    ensures x >= 4 && Split(x, q, e, r)
  {
    Pow2Monotone(0, e);
    MulLe(1, Pow2(e), q);
  }

  lemma LengthsEnd(i: nat, r: nat)
    requires i < 28 && r < Pow2(Spec.CPLEXT[i])
    ensures |Spec.CPLENS| == 31 && 3 <= Spec.CPLENS[i] + r <= 258 && (Spec.CPLENS[i] + r == 258 <==> i == 27 && r == 31)
  {
    SmallPowers();
    hide Pow2;
  }

  lemma NearLength(i: nat, r: nat)
    requires i < 4 && r < Pow2(Spec.CPLEXT[i])
    ensures Spec.CPLENS[i] == 3 + i && Spec.CPLEXT[i] == 0 == r && LengthCode(3 + i) == Code(257 + i, 0, 0)
  {
    PowTwo();
    hide Pow2;
  }

  /** A length's symbol stands for it. */
  lemma LengthMeans(len: nat)
    requires 3 <= len <= 258
    ensures var c := LengthCode(len);
      && 257 <= c.sym < 286 && c.k == Spec.CPLEXT[c.sym - 257]
      && c.extra < Pow2(c.k) && Spec.CPLENS[c.sym - 257] + c.extra == len
  {
    hide Pow2, LengthCode, Spec.CPLENS, Spec.CPLEXT;
    if 7 <= len < 258 {
      var q, e, r := FarLength(len);
      Quarter(e, q);
      LengthTable(4 * e + q, e, q);
    } else {
      EdgeLength(len);
    }
  }

  lemma FarLength(len: nat) returns (q: nat, e: nat, r: nat)
    requires 7 <= len < 258
    ensures e <= 5 && 4 <= q < 8 && r < Pow2(e) && len == 3 + q * Pow2(e) + r
    ensures LengthCode(len) == Code(257 + 4 * e + q, r, e)
  {
    SmallPowers();
    hide Log2, Pow2, Upper, Lower, LengthCode;
    var x := len - 3;
    LogAtLeast(x, 2);
    LogAtMost(x, 8);
    e := Log2(x) - 2;
    q, r := Upper(x, e), Lower(x, e);
    SplitIs(x, e);
    LogSplit(x, q, e, r, 2);
    LengthIs(len, q, e, r);
  }

  lemma EdgeLength(len: nat)
    requires 3 <= len < 7 || len == 258
    ensures var c := LengthCode(len);
      257 <= c.sym < 286 && c.k == 0 == Spec.CPLEXT[c.sym - 257] && c.extra < Pow2(0) && Spec.CPLENS[c.sym - 257] == len
    ensures LengthCode(len).extra == 0
  {
  }

  lemma DistanceEntry(i: nat)
    requires 2 <= i < 30
    ensures Spec.CPDEXT[i] == (i - 2) / 2
    ensures var u := Pow2((i - 2) / 2); Spec.CPDIST[i] == 1 + if i % 2 == 0 then 2 * u else 3 * u
  {
    SmallPowers();
    hide Pow2;
    if i < 10 {
    } else if i < 20 {
    } else {
    }
  }

  /** The symbol with q units of 2^e: the first distance is 1. */
  lemma DistanceTable(i: nat, e: nat, q: nat)
    requires 2 <= i < 30 && e == (i - 2) / 2 && q == 2 + i % 2
    ensures Spec.CPDEXT[i] == e && Spec.CPDIST[i] == 1 + q * Pow2(e)
  {
    hide Pow2, Spec.CPDIST, Spec.CPDEXT;
    DistanceEntry(i);
    Products(q, Pow2(e));
  }

  lemma DistanceIs(dist: nat, q: nat, e: nat, r: nat)
    requires 3 <= dist && Split(dist - 1, q, e, r) && 2 <= q < 4
    ensures DistanceCode(dist) == Code(2 * e + q, r, e)
  {
    PowTwo();
    hide Log2, Pow2, Upper, Lower;
    SplitLog(dist - 1, q, e, r, 1);
    SplitOnce(dist - 1, q, e, r);
  }

  /** Every distance has exactly one symbol and extra value. */
  lemma DistanceCoded(i: nat, r: nat)
    requires i < 30 && r < Pow2(Spec.CPDEXT[i])
    ensures var dist := Spec.CPDIST[i] + r;
      1 <= dist <= 32768 && DistanceCode(dist) == Code(i, r, Spec.CPDEXT[i])
  {
    hide Pow2, DistanceCode, Spec.CPDIST, Spec.CPDEXT;
    DistancesEnd(i, r);
    if i < 2 {
      NearDistance(i);
      PowTwo();
    } else {
      var e, q := (i - 2) / 2, 2 + i % 2;
      DistanceTable(i, e, q);
      DistanceIs(Spec.CPDIST[i] + r, q, e, r);
    }
  }

  lemma NearDistance(i: nat)
    requires i < 2
    ensures DistanceCode(1 + i) == Code(i, 0, 0) && Spec.CPDEXT[i] == 0 && Spec.CPDIST[i] == 1 + i && Pow2(0) == 1
  {
  }

  lemma DistancesEnd(i: nat, r: nat)
    requires i < 30 && r < Pow2(Spec.CPDEXT[i])
    ensures |Spec.CPDIST| == 30 && 1 <= Spec.CPDIST[i] + r <= 32768 && (i >= 2 ==> Spec.CPDIST[i] >= 3)
  {
    SmallPowers();
    hide Pow2;
  }

  lemma DistanceMeans(dist: nat)
    requires 1 <= dist <= 32768
    ensures var c := DistanceCode(dist);
      c.sym < 30 && c.k == Spec.CPDEXT[c.sym] && c.extra < Pow2(c.k) && Spec.CPDIST[c.sym] + c.extra == dist
  {
    hide Pow2, DistanceCode, Spec.CPDIST, Spec.CPDEXT;
    if dist >= 3 {
      var q, e, r := FarDistance(dist);
      Half(e, q);
      DistanceTable(2 * e + q, e, q);
    } else {
      NearDistance(dist - 1);
    }
  }

  lemma FarDistance(dist: nat) returns (q: nat, e: nat, r: nat)
    requires 3 <= dist <= 32768
    ensures e <= 13 && 2 <= q < 4 && r < Pow2(e) && dist == 1 + q * Pow2(e) + r
    ensures DistanceCode(dist) == Code(2 * e + q, r, e)
  {
    SmallPowers();
    hide Log2, Pow2, Upper, Lower, DistanceCode;
    var y := dist - 1;
    LogAtLeast(y, 1);
    LogAtMost(y, 15);
    e := Log2(y) - 1;
    q, r := Upper(y, e), Lower(y, e);
    SplitIs(y, e);
    LogSplit(y, q, e, r, 1);
    DistanceIs(dist, q, e, r);
  }

  // ---- Copies ---------------------------------------------------------------------------

  /** Appending the byte `dist` back, `len` times over, repeats the last `dist` bytes. */
  lemma {:induction false} CopyIs(out: seq<byte>, len: nat, dist: nat)
    requires 1 <= dist <= |out|
    ensures Spec.CopyMatch(out, len, dist) == out + Repeated(out, len, dist)
  {
    if len == 0 {
      NoCopy(out, dist);
      assert out + Repeated(out, 0, dist) == out;
    } else {
      hide Spec.CopyMatch, Repeated;
      var n := len - 1;
      CopyIs(out, n, dist);
      CopySplit(out, n, 1, dist);
      CopyOne(out + Repeated(out, n, dist), dist);
      NextRepeated(out, n, dist);
    }
  }

  lemma NextRepeated(out: seq<byte>, n: nat, dist: nat)
    requires 1 <= dist <= |out|
    ensures var r := out + Repeated(out, n, dist); r + [r[|r| - dist]] == out + Repeated(out, n + 1, dist)
  {
    hide Repeated;
    var c := Repeated(out, n, dist);
    var r := out + c;
    OneMore(out, n, dist);
    LastRepeated(out, n, dist);
    assert r[|r| - dist] == if n < dist then out[|out| - dist + n] else c[n - dist];
  }

  lemma OneMore(out: seq<byte>, n: nat, dist: nat)
    requires 1 <= dist <= |out|
    ensures Repeated(out, n + 1, dist) == Repeated(out, n, dist) + [out[|out| - dist + n % dist]]
  {
  }

  lemma LastRepeated(out: seq<byte>, n: nat, dist: nat)
    requires 1 <= dist <= |out|
    ensures out[|out| - dist + n % dist]
      == if n < dist then out[|out| - dist + n] else Repeated(out, n, dist)[n - dist]
  {
    StartsOver(n, dist);
  }

  lemma StartsOver(n: nat, d: nat)
    requires d >= 1
    ensures n < d ==> n % d == n
    ensures n >= d ==> n % d == (n - d) % d
  {
    if n < d {
      DivModUnique(n, d, 0, n);
    } else {
      DivModIs(n - d, d);
      Distribute(1, (n - d) / d, d);
      Commute(d, (n - d) / d, (n - d) / d + 1);
      DivModUnique(n, d, (n - d) / d + 1, (n - d) % d);
    }
  }

  // ---- Tokens ------------------------------------------------------------------------------

  lemma LiteralReads(lit: seq<nat>, dist: seq<nat>, wl: Book, out: seq<byte>, b: byte, rest: seq<bool>)
    requires Spec.GoodTrees(lit, dist) && Speaks(lit, wl) && Has(lit, b)
    ensures Spec.InflateCodes(lit, dist, out, wl(b) + rest) == Spec.InflateCodes(lit, dist, out + [b], rest)
  {
    hide Spec.ReadSymbol, Spec.InflateMatch, KraftSum;
  }

  lemma EndReads(lit: seq<nat>, dist: seq<nat>, wl: Book, out: seq<byte>, rest: seq<bool>)
    requires Spec.GoodTrees(lit, dist) && Speaks(lit, wl) && Has(lit, 256)
    ensures Spec.InflateCodes(lit, dist, out, wl(256) + rest) == Spec.Ok(out, rest)
  {
    hide Spec.ReadSymbol, Spec.InflateMatch, KraftSum;
  }

  /** The length symbol and its extra bits. */
  lemma LengthReads(lit: seq<nat>, dist: seq<nat>, wl: Book, out: seq<byte>, len: nat, rest: seq<bool>)
    requires Spec.GoodTrees(lit, dist) && Speaks(lit, wl) && 3 <= len <= 258 && Has(lit, LengthCode(len).sym)
    ensures Spec.InflateCodes(lit, dist, out, CodeBits(wl, LengthCode(len)) + rest)
         == Spec.InflateDistance(lit, dist, out, len, rest)
  {
    hide Spec.ReadSymbol, Spec.InflateDistance, LengthCode, Pow2, Lsb, CodeBits, Speaks, Has, ToBits;
    var c := LengthCode(len);
    LengthMeans(len);
    CodeReads(lit, wl, c, rest);
  }

  lemma DistanceReads(lit: seq<nat>, dist: seq<nat>, wd: Book, out: seq<byte>, len: nat, d: nat, rest: seq<bool>)
    requires Spec.GoodTrees(lit, dist) && Speaks(dist, wd) && 1 <= d <= 32768 && d <= |out|
    requires Has(dist, DistanceCode(d).sym)
    ensures Spec.InflateDistance(lit, dist, out, len, CodeBits(wd, DistanceCode(d)) + rest)
         == Spec.InflateCodes(lit, dist, out + Repeated(out, len, d), rest)
  {
    hide Spec.ReadSymbol, Spec.InflateCodes, DistanceCode, Pow2, Lsb, CodeBits, Speaks, Has, ToBits, Spec.CopyMatch,
      Repeated;
    var c := DistanceCode(d);
    DistanceMeans(d);
    CodeReads(dist, wd, c, rest);
    CopyIs(out, len, d);
  }

  lemma TokenReads(lit: seq<nat>, dist: seq<nat>, wl: Book, wd: Book, out: seq<byte>, t: Token, rest: seq<bool>)
    requires Spec.GoodTrees(lit, dist) && Speaks(lit, wl) && Speaks(dist, wd)
    requires Fits(out, t) && TokenSpoken(lit, dist, t)
    ensures Spec.InflateCodes(lit, dist, out, TokenBits(wl, wd, t) + rest)
         == Spec.InflateCodes(lit, dist, Says(out, t), rest)
  {
    hide Spec.InflateCodes, Spec.InflateDistance, LengthCode, DistanceCode, CodeBits, Speaks, Has, Repeated;
    match t
    case Literal(b) => LiteralReads(lit, dist, wl, out, b, rest);
    case Match(len, d) =>
      var x, y := CodeBits(wl, LengthCode(len)), CodeBits(wd, DistanceCode(d));
      LengthReads(lit, dist, wl, out, len, y + rest);
      DistanceReads(lit, dist, wd, out, len, d, rest);
      assert (x + y) + rest == x + (y + rest);
  }

  /** A block's tokens and its end are read back as what they say. */
  lemma {:induction false} TokensRead(lit: seq<nat>, dist: seq<nat>, wl: Book, wd: Book,
                                      out: seq<byte>, ts: seq<Token>, rest: seq<bool>)
    requires Spec.GoodTrees(lit, dist) && Speaks(lit, wl) && Speaks(dist, wd) && Has(lit, 256)
    requires AllFit(out, ts) && Spoken(lit, dist, ts)
    ensures Spec.InflateCodes(lit, dist, out, TokensBits(wl, wd, out, ts) + rest) == Spec.Ok(AllSay(out, ts), rest)
    decreases |ts|
  {
    hide Spec.InflateCodes, Speaks, Has, TokenBits, Says, TokenSpoken;
    if ts == [] {
      EndReads(lit, dist, wl, out, rest);
    } else {
      var o := Says(out, ts[0]);
      var x, y := TokenBits(wl, wd, ts[0]), TokensBits(wl, wd, o, ts[1..]);
      assert TokenSpoken(lit, dist, ts[0]);
      SpokenRest(lit, dist, ts);
      TokenReads(lit, dist, wl, wd, out, ts[0], y + rest);
      TokensRead(lit, dist, wl, wd, o, ts[1..], rest);
      assert (x + y) + rest == x + (y + rest);
    }
  }

  lemma SpokenRest(lit: seq<nat>, dist: seq<nat>, ts: seq<Token>)
    requires ts != [] && Spoken(lit, dist, ts)
    ensures Spoken(lit, dist, ts[1..])
  {
    hide TokenSpoken;
    forall i | 0 <= i < |ts| - 1
      ensures TokenSpoken(lit, dist, ts[1..][i])
    {
      assert TokenSpoken(lit, dist, ts[i + 1]);
    }
  }

  // ---- The fixed code words: section 3.2.6 ---------------------------------------------------

  lemma FixedFirsts()
    ensures var c := Counts(Spec.FixedLiterals()); First(c, 7) == 0 && First(c, 8) == 0x30 && First(c, 9) == 0x190
    ensures First(Counts(Spec.FixedDistances()), 5) == 0
  {
    hide CountOf, Spec.FixedLiterals, Spec.FixedDistances;
    var c, d := Counts(Spec.FixedLiterals()), Counts(Spec.FixedDistances());
    forall k: nat | k <= BMAX
      ensures c[k] == if k == 7 then 24 else if k == 8 then 152 else if k == 9 then 112 else 0
      ensures k < 5 ==> d[k] == 0
    {
      FixedLiteralCounts(k);
      FixedDistanceCounts(k);
    }
    hide Counts;
    NothingBefore(c, 7);
    NothingBefore(d, 5);
    NextFirst(c, 7);
    NextFirst(c, 8);
  }

  lemma FixedDistanceCounts(k: nat)
    ensures CountOf(Spec.FixedDistances(), k) == if k == 5 then 30 else 0
  {
    CountRepeat(5, 30, k);
  }

  /** How many symbols before `sym` have its length. */
  lemma FixedPlace(sym: nat)
    requires sym < 288
    ensures var lens := Spec.FixedLiterals();
      && |lens| == 288
      && lens[sym] == (if sym < 144 then 8 else if sym < 256 then 9 else if sym < 280 then 7 else 8)
      && CountOf(lens[..sym], lens[sym])
         == if sym < 144 then sym else if sym < 256 then sym - 144 else if sym < 280 then sym - 256 else sym - 136
  {
    hide CountOf;
    var lens := Spec.FixedLiterals();
    var a, b, c := Spec.Repeat(8, 144), Spec.Repeat(9, 112), Spec.Repeat(7, 24);
    if sym < 144 {
      assert lens[..sym] == Spec.Repeat(8, sym);
      CountRepeat(8, sym, 8);
    } else if sym < 256 {
      assert lens[..sym] == a + Spec.Repeat(9, sym - 144);
      CountConcat(a, Spec.Repeat(9, sym - 144), 9);
      CountRepeat(8, 144, 9);
      CountRepeat(9, sym - 144, 9);
    } else if sym < 280 {
      assert lens[..sym] == a + b + Spec.Repeat(7, sym - 256);
      CountConcat(a + b, Spec.Repeat(7, sym - 256), 7);
      CountConcat(a, b, 7);
      CountRepeat(8, 144, 7);
      CountRepeat(9, 112, 7);
      CountRepeat(7, sym - 256, 7);
    } else {
      assert lens[..sym] == a + b + c + Spec.Repeat(8, sym - 280);
      CountConcat(a + b + c, Spec.Repeat(8, sym - 280), 8);
      CountConcat(a + b, c, 8);
      CountConcat(a, b, 8);
      CountRepeat(8, 144, 8);
      CountRepeat(9, 112, 8);
      CountRepeat(7, 24, 8);
      CountRepeat(8, sym - 280, 8);
    }
  }

  /** The code words of the table in section 3.2.6. */
  lemma FixedWords(sym: nat)
    requires sym < 288
    ensures BookOf(Spec.FixedLiterals())(sym) == FixedLiteral(sym) && Has(Spec.FixedLiterals(), sym)
    ensures CodeOf(Spec.FixedLiterals(), sym) ==
      if sym < 144 then 0x30 + sym else if sym < 256 then 0x190 + (sym - 144)
      else if sym < 280 then sym - 256 else 0xC0 + (sym - 280)
  {
    hide First, CountOf, WordBits, Spec.FixedLiterals;
    FixedPlace(sym);
    FixedFirsts();
  }

  lemma FixedDistanceWords(sym: nat)
    requires sym < 30
    ensures BookOf(Spec.FixedDistances())(sym) == FixedDistance(sym) && Has(Spec.FixedDistances(), sym)
    ensures CodeOf(Spec.FixedDistances(), sym) == sym
  {
    hide First, CountOf, WordBits;
    FixedFirsts();
    assert Spec.FixedDistances()[..sym] == Spec.Repeat(5, sym);
    CountRepeat(5, sym, 5);
  }

  lemma FixedSpeaks()
    ensures Speaks(Spec.FixedLiterals(), FixedLiteral) && Speaks(Spec.FixedDistances(), FixedDistance)
    ensures Spec.GoodTrees(Spec.FixedLiterals(), Spec.FixedDistances())
  {
    hide Spec.ReadSymbol, KraftSum, BookOf, Pow2, Spec.FixedLiterals, Spec.FixedDistances, FixedLiteral, FixedDistance,
      CodeOf;
    FixedLiteralTree();
    FixedDistanceTree();
    forall sym: nat, rest: seq<bool> | Has(Spec.FixedLiterals(), sym)
      ensures Spec.ReadSymbol(Spec.FixedLiterals(), FixedLiteral(sym) + rest) == Spec.Ok(sym, rest)
    {
      FixedWords(sym);
      SymbolReads(Spec.FixedLiterals(), sym, rest);
    }
    forall sym: nat, rest: seq<bool> | Has(Spec.FixedDistances(), sym)
      ensures Spec.ReadSymbol(Spec.FixedDistances(), FixedDistance(sym) + rest) == Spec.Ok(sym, rest)
    {
      FixedDistanceWords(sym);
      SymbolReads(Spec.FixedDistances(), sym, rest);
    }
  }

  /** Any token can be said in the fixed codes. */
  lemma {:induction false} FixedSpoken(out: seq<byte>, ts: seq<Token>)
    requires AllFit(out, ts)
    ensures Spoken(Spec.FixedLiterals(), Spec.FixedDistances(), ts)
    decreases |ts|
  {
    hide Spec.FixedLiterals, Spec.FixedDistances, LengthCode, DistanceCode, Has, BookOf, FixedLiteral, FixedDistance,
      CodeOf;
    if ts != [] {
      FixedSpoken(Says(out, ts[0]), ts[1..]);
      match ts[0] {
        case Literal(b) => FixedWords(b);
        case Match(len, d) =>
          LengthMeans(len);
          DistanceMeans(d);
          FixedWords(LengthCode(len).sym);
          FixedDistanceWords(DistanceCode(d).sym);
      }
      forall i | 0 <= i < |ts|
        ensures TokenSpoken(Spec.FixedLiterals(), Spec.FixedDistances(), ts[i])
      {
        if i > 0 {
          assert TokenSpoken(Spec.FixedLiterals(), Spec.FixedDistances(), ts[1..][i - 1]);
        }
      }
    }
  }

  lemma FixedReads(out: seq<byte>, ts: seq<Token>, rest: seq<bool>)
    requires AllFit(out, ts)
    ensures Spec.InflateFixed(out, TokensBits(FixedLiteral, FixedDistance, out, ts) + rest)
         == Spec.Ok(AllSay(out, ts), rest)
  {
    hide Spec.InflateCodes, Speaks, Spec.FixedLiterals, Spec.FixedDistances, TokensBits, AllSay, AllFit, FixedLiteral,
      FixedDistance, Has;
    FixedSpeaks();
    FixedSpoken(out, ts);
    FixedWords(256);
    TokensRead(Spec.FixedLiterals(), Spec.FixedDistances(), FixedLiteral, FixedDistance, out, ts, rest);
  }

  // ---- Stored blocks: section 3.2.4 ------------------------------------------------------------

  lemma {:induction false} BytesRead(out: seq<byte>, s: seq<byte>, rest: seq<bool>)
    ensures Spec.StoredBytes(|s|, out, BytesBits(s) + rest) == Spec.Ok(out + s, rest)
    decreases |s|
  {
    hide Pow2, Lsb, ToBits;
    if s == [] {
      assert BytesBits(s) + rest == rest && out + s == out;
    } else {
      var x, y := ToBits(s[0], 8), BytesBits(s[1..]);
      EightBits();
      NumberFront(s[0], 8, y + rest);
      assert (x + y) + rest == x + (y + rest);
      BytesRead(out + [s[0]], s[1..], rest);
      assert out + [s[0]] + s[1..] == out + s;
    }
  }

  lemma EightBits()
    ensures Pow2(8) == 256 && Pow2(16) == 0x1_0000
  {
    assert Pow2(4) == 16;
    Pow2Add(4, 4);
    Pow2Add(8, 8);
  }

  /** Where the two length fields of a stored block are found. */
  lemma StoredHead(pad: seq<bool>, n: nat, m: nat, d: seq<bool>)
    requires |pad| < 8 && |d| % 8 == 0 && n <= 0xffff && m <= 0xffff
    ensures var bits := pad + (ToBits(n, 16) + (ToBits(m, 16) + d));
      var b := bits[|bits| % 8..];
      |b| >= 32 && Lsb(b[..16]) == n && Lsb(b[16..32]) == m && b[32..] == d
  {
    hide Pow2, Lsb, ToBits;
    EightBits();
    var y := ToBits(m, 16) + d;
    var b := ToBits(n, 16) + y;
    Front(pad, b);
    NumberFront(n, 16, y);
    NumberFront(m, 16, d);
    PadLeft(|pad + b|, |pad|, |d|);
    assert b[16..32] == y[..16] && b[32..] == y[16..];
  }

  lemma StoredReads(out: seq<byte>, pad: seq<bool>, s: seq<byte>, rest: seq<bool>)
    requires |s| <= 0xffff && |pad| < 8
    requires (|BytesBits(s)| + |rest|) % 8 == 0
    ensures Spec.InflateStored(out, pad + ToBits(|s|, 16) + ToBits(0xffff - |s|, 16) + BytesBits(s) + rest)
         == Spec.Ok(out + s, rest)
  {
    hide Lsb, ToBits, BytesBits, Spec.StoredBytes;
    var n, m, d := ToBits(|s|, 16), ToBits(0xffff - |s|, 16), BytesBits(s) + rest;
    assert pad + n + m + BytesBits(s) + rest == pad + (n + (m + d));
    StoredHead(pad, |s|, 0xffff - |s|, d);
    BytesRead(out, s, rest);
  }

  lemma PadLeft(n: nat, pad: nat, d: nat)
    requires n == pad + 32 + d && d % 8 == 0 && pad < 8
    ensures n % 8 == pad
  {
  }

  // ---- Dynamic trees: section 3.2.7 --------------------------------------------------------------

  /** The order of the code length code's lengths. */
  lemma OrderIs(j: nat)
    requires j < 19
    ensures Order(j) < 19 && Spec.BORDER[j] == Order(j)
  {
  }

  /** That order in words: 16, 17, 18, 0, and then 8, 7, 9, 6, 10 and so on, outwards from 8. */
  lemma OrderOutwards(k: nat)
    requires k < 7
    ensures Spec.BORDER[..5] == [16, 17, 18, 0, 8] && |Spec.BORDER| == 19
    ensures Spec.BORDER[5 + 2 * k] == 7 - k && Spec.BORDER[6 + 2 * k] == 9 + k
  {
    OrderIs(5 + 2 * k);
    OrderIs(6 + 2 * k);
  }

  /** Where a symbol comes in that order. */
  function Place(i: nat): (j: nat)
    requires i < 19
    ensures j < 19 && Order(j) == i
  {
    if i >= 16 then i - 16 else if i == 0 then 3 else if i >= 8 then 2 * (i - 6) else 19 - 2 * i
  }

  lemma OrderOnce(j: nat, j': nat)
    requires j < 19 && j' < 19 && Order(j) == Order(j')
    ensures j == j'
  {
  }

  /** The lengths sent are set, the others still 0. */
  ghost predicate SetUpTo(bl: seq<nat>, ll: seq<nat>, j: nat)
  {
    && |bl| == |ll| == 19 && (forall i :: 0 <= i < 19 ==> bl[i] < 8)
    && forall i :: 0 <= i < 19 ==> ll[i] == if Place(i) < j then bl[i] else 0
  }

  lemma SetNext(bl: seq<nat>, ll: seq<nat>, j: nat)
    requires SetUpTo(bl, ll, j) && j < 19
    ensures Order(j) < 19 && SetUpTo(bl, ll[Order(j) := bl[Order(j)]], j + 1)
  {
    OrderIs(j);
    forall i | 0 <= i < 19
      ensures Place(i) == j <==> i == Order(j)
    {
      if i == Order(j) {
        OrderOnce(Place(i), j);
      }
    }
  }

  lemma {:induction false} OrderReads(bl: seq<nat>, ll: seq<nat>, j: nat, nb: nat, rest: seq<bool>)
    requires SetUpTo(bl, ll, j) && j <= nb <= 19 && forall i :: nb <= i < 19 ==> Order(i) < 19 && bl[Order(i)] == 0
    ensures forall i :: 0 <= i < 19 ==> ll[i] < 8
    ensures Spec.LengthCodeLengths(j, nb, ll, OrderBits(bl, j, nb) + rest) == Spec.Ok(bl, rest)
    decreases nb - j
  {
    hide ToBits, Order, Place, Spec.LengthCodeLengths;
    LengthsSmall(bl, ll, j);
    if j == nb {
      assert OrderBits(bl, j, nb) + rest == rest;
      AllSet(bl, ll, nb);
      OrderEnds(nb, ll, rest);
    } else {
      SetNext(bl, ll, j);
      var x, y := bl[Order(j)], OrderBits(bl, j + 1, nb);
      OrderStep(j, nb, ll, x, y + rest);
      assert OrderBits(bl, j, nb) + rest == ToBits(x, 3) + (y + rest);
      OrderReads(bl, ll[Order(j) := x], j + 1, nb, rest);
    }
  }

  lemma LengthsSmall(bl: seq<nat>, ll: seq<nat>, j: nat)
    requires SetUpTo(bl, ll, j)
    ensures forall i :: 0 <= i < 19 ==> ll[i] < 8
  {
    hide Place;
  }

  lemma AllSet(bl: seq<nat>, ll: seq<nat>, nb: nat)
    requires SetUpTo(bl, ll, nb) && nb <= 19 && forall i :: nb <= i < 19 ==> Order(i) < 19 && bl[Order(i)] == 0
    ensures ll == bl
  {
    hide Order, Place;
    forall i | 0 <= i < 19
      ensures ll[i] == bl[i]
    {
      assert Order(Place(i)) == i;
    }
  }

  lemma OrderEnds(nb: nat, ll: seq<nat>, rest: seq<bool>)
    requires nb <= 19 == |ll| && forall i :: 0 <= i < 19 ==> ll[i] < 8
    ensures Spec.LengthCodeLengths(nb, nb, ll, rest) == Spec.Ok(ll, rest)
  {
  }

  /** Three bits set one length. */
  lemma OrderStep(j: nat, nb: nat, ll: seq<nat>, x: nat, rest: seq<bool>)
    requires j < nb <= 19 == |ll| && x < 8 && forall i :: 0 <= i < 19 ==> ll[i] < 8
    ensures Order(j) < 19
    ensures Spec.LengthCodeLengths(j, nb, ll, ToBits(x, 3) + rest)
         == Spec.LengthCodeLengths(j + 1, nb, ll[Order(j) := x], rest)
  {
    hide Pow2, Lsb, ToBits, Order, Spec.BORDER;
    ThreeBits();
    OrderIs(j);
    NumberFront(x, 3, rest);
  }

  lemma ThreeBits()
    ensures Pow2(3) == 8
  {
  }

  /** The extra bits of a run hold its length. */
  lemma RunCodeFits(r: Run)
    requires RunFits(r)
    ensures RunCode(r).extra < Pow2(RunCode(r).k) && RunCode(r).sym < 19
  {
    SmallPowers();
  }

  ghost predicate Small(acc: seq<nat>) { forall i :: 0 <= i < |acc| ==> acc[i] < 16 }

  lemma RunReads(bl: seq<nat>, w: Book, n: nat, acc: seq<nat>, r: Run, rest: seq<bool>)
    requires |bl| == 19 && Speaks(bl, w) && RunFits(r) && Has(bl, RunCode(r).sym) && Small(acc)
    requires |RunSays(acc, r)| <= n
    ensures Small(RunSays(acc, r)) && |RunSays(acc, r)| > |acc|
    ensures Spec.TreeLengths(bl, n, acc, Last(acc), CodeBits(w, RunCode(r)) + rest)
         == Spec.TreeLengths(bl, n, RunSays(acc, r), Last(RunSays(acc, r)), rest)
  {
    hide Pow2, Lsb, ToBits, Spec.ReadSymbol, CodeBits, Speaks;
    var c := RunCode(r);
    RunCodeFits(r);
    CodeReads(bl, w, c, rest);
    var b := ToBits(c.extra, c.k) + rest;
    assert c.k == 0 ==> b == rest by { NoBits(c.extra, rest); }
    TimesRepeat(Last(acc), |RunSays(acc, r)| - |acc|);
    TimesRepeat(0, |RunSays(acc, r)| - |acc|);
  }

  lemma NoBits(n: nat, rest: seq<bool>)
    ensures ToBits(n, 0) + rest == rest
  {
  }

  lemma TimesRepeat(x: nat, n: nat)
    ensures Times(x, n) == Spec.Repeat(x, n)
  {
  }

  lemma {:induction false} RunsGrow(acc: seq<nat>, rs: seq<Run>)
    ensures |RunsSay(acc, rs)| >= |acc|
    decreases |rs|
  {
    if rs != [] {
      RunsGrow(RunSays(acc, rs[0]), rs[1..]);
    }
  }

  lemma {:induction false} RunsRead(bl: seq<nat>, w: Book, n: nat, acc: seq<nat>, rs: seq<Run>, rest: seq<bool>)
    requires |bl| == 19 && ValidLengths(bl) && Speaks(bl, w) && RunsFit(rs) && Small(acc) && |RunsSay(acc, rs)| == n
    requires forall i :: 0 <= i < |rs| ==> Has(bl, RunCode(rs[i]).sym)
    ensures |acc| <= n && Last(acc) < 16
    ensures Spec.TreeLengths(bl, n, acc, Last(acc), RunsBits(w, rs) + rest) == Spec.Ok(RunsSay(acc, rs), rest)
    decreases |rs|
  {
    hide Speaks, RunSays, CodeBits, Has, RunCode, RunFits, Spec.TreeLengths;
    RunsGrow(acc, rs);
    if rs == [] {
      assert RunsBits(w, rs) + rest == rest;
      AllRead(bl, acc, rest);
    } else {
      var acc' := RunSays(acc, rs[0]);
      RunsGrow(acc', rs[1..]);
      var x, y := CodeBits(w, RunCode(rs[0])), RunsBits(w, rs[1..]);
      assert RunFits(rs[0]) && Has(bl, RunCode(rs[0]).sym);
      RunReads(bl, w, n, acc, rs[0], y + rest);
      assert (x + y) + rest == x + (y + rest);
      RunsRead(bl, w, n, acc', rs[1..], rest);
    }
  }

  lemma AllRead(bl: seq<nat>, acc: seq<nat>, rest: seq<bool>)
    requires ValidLengths(bl) && |bl| == 19 && Small(acc)
    ensures Last(acc) < 16 && Spec.TreeLengths(bl, |acc|, acc, Last(acc), rest) == Spec.Ok(acc, rest)
  {
  }

  /** What each kind of code does to its tree. */
  lemma CodeKinds(lens: seq<nat>)
    requires ValidLengths(lens)
    ensures Spec.TreeCode(lens) == if Usable(lens) then 0 else if OverFull(lens) then 2 else 1
  {
    hide KraftSum, Pow2;
    var g := MaxLength(lens, BMAX);
    if g == 0 {
      NothingCoded(lens);
    }
    if g == 1 && !OverFull(lens) {
      forall i | 0 <= i < |lens|
        ensures lens[i] <= 1
      {
        CountAtLeast(lens, i);
      }
    }
    if g > 1 {
      SomeLength(lens, g);
    }
  }

  lemma {:induction false} CountAtLeast(lens: seq<nat>, i: nat)
    requires i < |lens|
    ensures CountOf(lens, lens[i]) > 0
  {
    if i < |lens| - 1 {
      CountAtLeast(lens[..|lens| - 1], i);
    }
  }

  lemma {:induction false} NothingCoded(lens: seq<nat>)
    requires ValidLengths(lens) && forall k :: 0 < k <= BMAX ==> CountOf(lens, k) == 0
    ensures KraftSum(lens) == 0 && forall i :: 0 <= i < |lens| ==> lens[i] == 0
  {
    hide Pow2;
    if lens != [] {
      var n := |lens| - 1;
      assert lens[n] > 0 ==> CountOf(lens, lens[n]) == 0;
      forall k | 0 < k <= BMAX
        ensures CountOf(lens[..n], k) == 0
      {
        assert CountOf(lens, k) == 0;
      }
      NothingCoded(lens[..n]);
    }
  }

  lemma {:induction false} SomeLength(lens: seq<nat>, k: nat)
    requires CountOf(lens, k) > 0
    ensures exists i :: 0 <= i < |lens| && lens[i] == k
  {
    var n := |lens| - 1;
    if lens[n] != k {
      SomeLength(lens[..n], k);
      var i :| 0 <= i < n && lens[..n][i] == k;
      assert lens[i] == k;
    }
  }

  lemma ListsRead(out: seq<byte>, h: Trees, rest: seq<bool>)
    requires ListsFit(h)
    ensures Spec.GoodTrees(h.lit, h.dist)
    ensures Spec.InflateDynamic(out, TreesBits(h) + rest) == Spec.InflateTrees(h.lit, h.dist, out, rest)
  {
    hide Pow2, Lsb, ToBits, Usable, RunsBits, OrderBits, Order, RunCode, RunsSay, KraftSum, BookOf, Has, OverFull;
    hide Spec.LengthCodeLengths, Spec.TreeLengths, Spec.InflateTrees, Spec.TreeCode;
    var w, nl, nd := BookOf(h.bl), |h.lit|, |h.dist|;
    var r2 := RunsBits(w, h.runs) + rest;
    var r1 := OrderBits(h.bl, 0, h.nb) + r2;
    var b := ToBits(nl - 257, 5) + (ToBits(nd - 1, 5) + (ToBits(h.nb - 4, 4) + r1));
    assert TreesBits(h) + rest == b;
    HeaderReads(nl - 257, nd - 1, h.nb - 4, r1);
    UsableValid(h.bl);
    NoneSet(h.bl);
    OrderReads(h.bl, Spec.Repeat(0, 19), 0, h.nb, r2);
    BookSpeaks(h.bl);
    RunsRead(h.bl, w, nl + nd, [], h.runs, rest);
    assert (h.lit + h.dist)[..nl] == h.lit && (h.lit + h.dist)[nl..] == h.dist;
    CodeKinds(h.bl);
  }

  lemma TreesRead(out: seq<byte>, h: Trees, rest: seq<bool>)
    requires TreesFit(h)
    ensures Spec.GoodTrees(h.lit, h.dist)
    ensures Spec.InflateDynamic(out, TreesBits(h) + rest) == Spec.InflateCodes(h.lit, h.dist, out, rest)
  {
    hide ListsFit, TreesBits, Spec.InflateDynamic, Spec.InflateCodes, Spec.TreeCode, KraftSum, Has, Pow2;
    ListsRead(out, h, rest);
    CodeKinds(h.lit);
    CodeKinds(h.dist);
  }

  lemma UsableValid(lens: seq<nat>)
    requires Usable(lens)
    ensures ValidLengths(lens)
  {
  }

  lemma NoneSet(bl: seq<nat>)
    requires |bl| == 19 && forall i :: 0 <= i < 19 ==> bl[i] < 8
    ensures SetUpTo(bl, Spec.Repeat(0, 19), 0)
  {
  }

  /** The three counts at the head of a dynamic block. */
  lemma HeaderReads(a: nat, b: nat, c: nat, rest: seq<bool>)
    requires a < 32 && b < 32 && c < 16
    ensures var s := ToBits(a, 5) + (ToBits(b, 5) + (ToBits(c, 4) + rest));
      && |s| == 14 + |rest| && Lsb(s[..5]) == a && Lsb(s[5..10]) == b && Lsb(s[10..14]) == c && s[14..] == rest
  {
    SmallPowers();
    hide Pow2, Lsb, ToBits;
    var u := ToBits(c, 4) + rest;
    var t := ToBits(b, 5) + u;
    var s := ToBits(a, 5) + t;
    NumberFront(a, 5, t);
    NumberFront(b, 5, u);
    NumberFront(c, 4, rest);
    assert s[5..10] == t[..5] && s[10..14] == u[..4] && s[14..] == u[4..];
  }

  // ---- Blocks and streams --------------------------------------------------------------------------

  lemma KindIs(x: bool, y: bool)
    ensures Lsb([x, y]) == Bit(x) + 2 * Bit(y)
  {
    OneBit(x);
    OneBit(y);
    LsbConcat([x], [y]);
    assert [x] + [y] == [x, y] && Pow2(1) == 2;
  }

  lemma OneBit(x: bool)
    ensures Lsb([x]) == Bit(x)
  {
    assert [x][1..] == [];
  }

  /** The two bits of the type in front of a block. */
  lemma KindReads(x: bool, y: bool, t: seq<bool>, rest: seq<bool>)
    ensures var bits := [x, y] + t + rest;
      |bits| >= 2 && Lsb(bits[..2]) == Bit(x) + 2 * Bit(y) && bits[2..] == t + rest
  {
    KindIs(x, y);
    Front([x, y], t + rest);
    assert [x, y] + t + rest == [x, y] + (t + rest);
  }

  /** One block: its type picks the way it is read, and what is read is what it says. */
  lemma BlockReads(out: seq<byte>, pos: nat, b: Block, rest: seq<bool>)
    requires BlockFits(out, pos, b) && (pos + 1 + |BlockBits(out, pos, b)| + |rest|) % 8 == 0
    ensures var bits := BlockBits(out, pos, b) + rest;
      |bits| >= 2 && Spec.InflateBlock(out, Lsb(bits[..2]), bits[2..]) == Spec.Ok(BlockSays(out, pos, b), rest)
  {
    hide *;
    match b
    case Stored(pad, s) => StoredBlock(out, pos, pad, s, rest);
    case Fixed(ts) => FixedBlock(out, pos, ts, rest);
    case Dynamic(h, ts) => DynamicBlock(out, pos, h, ts, rest);
  }

  lemma StoredBlock(out: seq<byte>, pos: nat, pad: seq<bool>, s: seq<byte>, rest: seq<bool>)
    requires var b := Stored(pad, s);
      BlockFits(out, pos, b) && (pos + 1 + |BlockBits(out, pos, b)| + |rest|) % 8 == 0
    ensures var b := Stored(pad, s);
      var bits := BlockBits(out, pos, b) + rest;
      |bits| >= 2 && Spec.InflateBlock(out, Lsb(bits[..2]), bits[2..]) == Spec.Ok(BlockSays(out, pos, b), rest)
  {
    hide *;
    var t := StoredParts(out, pos, pad, s);
    KindReads(false, false, t, rest);
    ByteAligned(pos, |pad|, |BytesBits(s)|, |rest|);
    StoredReads(out, pad, s, rest);
    KindNone(out, t + rest);
  }

  lemma StoredParts(out: seq<byte>, pos: nat, pad: seq<bool>, s: seq<byte>) returns (t: seq<bool>)
    requires BlockFits(out, pos, Stored(pad, s))
    ensures |s| <= 0xffff && |pad| < 8 && (pos + 3 + |pad|) % 8 == 0 && BlockSays(out, pos, Stored(pad, s)) == out + s
    ensures t == pad + ToBits(|s|, 16) + ToBits(0xffff - |s|, 16) + BytesBits(s)
    ensures BlockBits(out, pos, Stored(pad, s)) == [false, false] + t && |t| == |pad| + 16 + 16 + |BytesBits(s)|
  {
    hide ToBits, BytesBits;
    t := pad + ToBits(|s|, 16) + ToBits(0xffff - |s|, 16) + BytesBits(s);
    assert BlockBits(out, pos, Stored(pad, s)) == [false, false] + t;
  }

  lemma KindNone(out: seq<byte>, bits: seq<bool>)
    ensures Spec.InflateBlock(out, Bit(false) + 2 * Bit(false), bits) == Spec.InflateStored(out, bits)
  {
    hide Spec.InflateStored;
  }

  lemma KindOne(out: seq<byte>, bits: seq<bool>)
    ensures Spec.InflateBlock(out, Bit(true) + 2 * Bit(false), bits) == Spec.InflateFixed(out, bits)
  {
    hide Spec.InflateFixed;
  }

  lemma FixedBlock(out: seq<byte>, pos: nat, ts: seq<Token>, rest: seq<bool>)
    requires BlockFits(out, pos, Fixed(ts))
    ensures var bits := BlockBits(out, pos, Fixed(ts)) + rest;
      |bits| >= 2 && Spec.InflateBlock(out, Lsb(bits[..2]), bits[2..]) == Spec.Ok(BlockSays(out, pos, Fixed(ts)), rest)
  {
    hide Lsb, Spec.InflateStored, Spec.InflateFixed, Spec.InflateDynamic, TokensBits, AllSay, AllFit;
    hide FixedLiteral, FixedDistance;
    KindReads(true, false, TokensBits(FixedLiteral, FixedDistance, out, ts), rest);
    FixedReads(out, ts, rest);
  }

  lemma KindTwo(out: seq<byte>, bits: seq<bool>)
    ensures Spec.InflateBlock(out, Bit(false) + 2 * Bit(true), bits) == Spec.InflateDynamic(out, bits)
  {
    hide Spec.InflateDynamic;
  }

  lemma DynamicBlock(out: seq<byte>, pos: nat, h: Trees, ts: seq<Token>, rest: seq<bool>)
    requires BlockFits(out, pos, Dynamic(h, ts))
    ensures var b := Dynamic(h, ts);
      var bits := BlockBits(out, pos, b) + rest;
      |bits| >= 2 && Spec.InflateBlock(out, Lsb(bits[..2]), bits[2..]) == Spec.Ok(BlockSays(out, pos, b), rest)
  {
    hide Lsb, Spec.InflateStored, Spec.InflateFixed, Spec.InflateDynamic, TokensBits, AllSay, AllFit;
    hide ListsFit, Usable, TreesBits, BookOf, Spoken;
    var x, y := TreesBits(h), TokensBits(BookOf(h.lit), BookOf(h.dist), out, ts);
    KindReads(false, true, x + y, rest);
    assert [false, true] + (x + y) == [false, true] + x + y && (x + y) + rest == x + (y + rest);
    DynamicReads(out, h, ts, rest);
  }

  lemma ByteAligned(pos: nat, pad: nat, n: nat, rest: nat)
    requires (pos + 3 + pad) % 8 == 0 && (pos + 1 + (2 + pad + 16 + 16 + n) + rest) % 8 == 0
    ensures (n + rest) % 8 == 0
  {
  }

  lemma DynamicReads(out: seq<byte>, h: Trees, ts: seq<Token>, rest: seq<bool>)
    requires TreesFit(h) && AllFit(out, ts) && Spoken(h.lit, h.dist, ts)
    ensures Spec.InflateDynamic(out, TreesBits(h) + (TokensBits(BookOf(h.lit), BookOf(h.dist), out, ts) + rest))
         == Spec.Ok(AllSay(out, ts), rest)
  {
    hide Spec.InflateDynamic, Spec.InflateCodes, TokensBits, AllSay, AllFit, TreesBits, BookOf, Spoken, Speaks, Usable;
    BookSpeaks(h.lit);
    BookSpeaks(h.dist);
    TreesRead(out, h, TokensBits(BookOf(h.lit), BookOf(h.dist), out, ts) + rest);
    TokensRead(h.lit, h.dist, BookOf(h.lit), BookOf(h.dist), out, ts, rest);
  }

  /** Whatever a compressor writes, in stored, fixed and dynamic blocks, is read back as what it says. */
  lemma {:induction false} StreamReads(out: seq<byte>, pos: nat, bs: seq<Block>, rest: seq<bool>)
    requires StreamFits(out, pos, bs) && (pos + |StreamBits(out, pos, bs)| + |rest|) % 8 == 0
    ensures Spec.Inflate(out, StreamBits(out, pos, bs) + rest) == Spec.Ok(StreamSays(out, pos, bs), rest)
    decreases |bs|
  {
    hide BlockBits, BlockSays, BlockFits, Spec.InflateBlock, Lsb;
    var x, o := BlockBits(out, pos, bs[0]), BlockSays(out, pos, bs[0]);
    var bits := StreamBits(out, pos, bs) + rest;
    if |bs| == 1 {
      BlockReads(out, pos, bs[0], rest);
      assert bits == [true] + (x + rest);
      HeadBits(true, x + rest);
    } else {
      var p := pos + 1 + |x|;
      var y := StreamBits(o, p, bs[1..]);
      BlockReads(out, pos, bs[0], y + rest);
      StreamReads(o, p, bs[1..], rest);
      assert bits == [false] + (x + (y + rest));
      HeadBits(false, x + (y + rest));
    }
  }

  lemma HeadBits(last: bool, t: seq<bool>)
    ensures var s := [last] + t; s[0] == last && (|t| >= 2 ==> s[1..3] == t[..2] && s[3..] == t[2..])
  {
  }

  /** The first block's type is its second and third bit, low bit first. */
  lemma FirstBlock(out: seq<byte>, last: bool, x: bool, y: bool, t: seq<bool>)
    ensures var r := Spec.InflateBlock(out, Bit(x) + 2 * Bit(y), t);
      && (r.Err? ==> Spec.Inflate(out, [last, x, y] + t) == Spec.Err(r.code))
      && (r.Halt? ==> Spec.Inflate(out, [last, x, y] + t) == Spec.Halt)
      && (r.Ok? && last ==> Spec.Inflate(out, [last, x, y] + t) == Spec.Ok(r.value, r.rest))
  {
    hide Spec.InflateBlock, Lsb;
    KindIs(x, y);
    HeadBits(last, [x, y] + t);
    assert [last, x, y] + t == [last] + ([x, y] + t);
    assert ([x, y] + t)[..2] == [x, y] && ([x, y] + t)[2..] == t;
  }

  /** The type 3 is refused. */
  lemma TypeThree(out: seq<byte>, last: bool, rest: seq<bool>)
    ensures Spec.Inflate(out, [last, true, true] + rest) == Spec.Err(2)
  {
    hide Spec.Inflate;
    FirstBlock(out, last, true, true, rest);
  }

  /** A stored block whose second length is not the complement of the first is refused. */
  lemma LengthsDisagree(out: seq<byte>, last: bool, pad: seq<bool>, n: nat, m: nat, rest: seq<bool>)
    requires |pad| < 8 && |rest| % 8 == 0 && n <= 0xffff && m <= 0xffff && n + m != 0xffff
    ensures Spec.Inflate(out, [last, false, false] + (pad + (ToBits(n, 16) + (ToBits(m, 16) + rest))))
         == Spec.Err(1)
  {
    hide Spec.Inflate, Spec.StoredBytes, ToBits, Lsb;
    StoredHead(pad, n, m, rest);
    FirstBlock(out, last, false, false, pad + (ToBits(n, 16) + (ToBits(m, 16) + rest)));
  }

  /** More than 286 literal and length codes or more than 30 distance codes are refused. */
  lemma TooManyCodes(out: seq<byte>, last: bool, a: nat, b: nat, c: nat, rest: seq<bool>)
    requires a < 32 && b < 32 && c < 16 && (257 + a > 286 || 1 + b > 30)
    ensures Spec.Inflate(out, [last, false, true] + (ToBits(a, 5) + (ToBits(b, 5) + (ToBits(c, 4) + rest))))
         == Spec.Err(1)
  {
    hide Spec.Inflate, ToBits, Lsb, Spec.LengthCodeLengths, Spec.TreeLengths, Spec.InflateTrees, Spec.TreeCode;
    HeaderReads(a, b, c, rest);
    FirstBlock(out, last, false, true, ToBits(a, 5) + (ToBits(b, 5) + (ToBits(c, 4) + rest)));
  }

  /** Trees that are not usable: an over-full one is refused, an incomplete one stops the machine. */
  lemma UnusableTrees(out: seq<byte>, last: bool, h: Trees, rest: seq<bool>)
    requires ListsFit(h) && !(Usable(h.lit) && Usable(h.dist))
    ensures Spec.Inflate(out, [last, false, true] + (TreesBits(h) + rest))
      == if OverFull(h.lit) then Spec.Err(2) else if !Usable(h.lit) then Spec.Halt
         else if OverFull(h.dist) then Spec.Err(2) else Spec.Halt
  {
    hide *;
    ListsRead(out, h, rest);
    TreesStop(h.lit, h.dist, out, rest);
    KindTwo(out, TreesBits(h) + rest);
    FirstBlock(out, last, false, true, TreesBits(h) + rest);
  }

  lemma TreesStop(lit: seq<nat>, dist: seq<nat>, out: seq<byte>, rest: seq<bool>)
    requires Spec.GoodTrees(lit, dist) && !(Usable(lit) && Usable(dist))
    ensures ValidLengths(lit) && ValidLengths(dist)
    ensures Spec.InflateTrees(lit, dist, out, rest)
      == if OverFull(lit) then Spec.Err(2) else if !Usable(lit) then Spec.Halt
         else if OverFull(dist) then Spec.Err(2) else Spec.Halt
  {
    hide Usable, OverFull, Spec.TreeCode, Spec.InflateCodes;
    CodeKinds(lit);
    CodeKinds(dist);
    NotBoth(lit);
    NotBoth(dist);
  }

  lemma NotBoth(lens: seq<nat>)
    requires ValidLengths(lens)
    ensures !(OverFull(lens) && Usable(lens))
  {
  }

  /** So is a code length code that is not: with the error of huft_build. */
  lemma UnusableLengthCode(out: seq<byte>, last: bool, a: nat, b: nat, bl: seq<nat>, nb: nat, rest: seq<bool>)
    requires 257 + a <= 286 && 1 + b <= 30 && 4 <= nb <= 19 == |bl| && (forall i :: 0 <= i < 19 ==> bl[i] < 8)
    requires (forall j :: nb <= j < 19 ==> Order(j) < 19 && bl[Order(j)] == 0) && !Usable(bl)
    ensures ValidLengths(bl)
    ensures Spec.Inflate(out, [last, false, true] +
      (ToBits(a, 5) + (ToBits(b, 5) + (ToBits(nb - 4, 4) + (OrderBits(bl, 0, nb) + rest)))))
      == Spec.Err(if OverFull(bl) then 2 else 1)
  {
    hide ToBits, Lsb, Pow2, OrderBits, Order, Usable, OverFull, Spec.Inflate, Spec.LengthCodeLengths, Spec.TreeLengths,
      Spec.InflateTrees, Spec.TreeCode;
    var r1 := OrderBits(bl, 0, nb) + rest;
    HeaderReads(a, b, nb - 4, r1);
    NoneSet(bl);
    OrderReads(bl, Spec.Repeat(0, 19), 0, nb, rest);
    CodeKinds(bl);
    FirstBlock(out, last, false, true, ToBits(a, 5) + (ToBits(b, 5) + (ToBits(nb - 4, 4) + r1)));
  }

  /** And a run that goes past the last length. */
  lemma RunTooLong(bl: seq<nat>, w: Book, n: nat, acc: seq<nat>, r: Run, rest: seq<bool>)
    requires |bl| == 19 && Speaks(bl, w) && RunFits(r) && Has(bl, RunCode(r).sym) && Small(acc)
    requires |acc| < n < |RunSays(acc, r)|
    ensures ValidLengths(bl) && Last(acc) < 16
    ensures Spec.TreeLengths(bl, n, acc, Last(acc), CodeBits(w, RunCode(r)) + rest) == Spec.Err(1)
  {
    hide Pow2, Lsb, ToBits, Spec.ReadSymbol, CodeBits;
    RunCodeFits(r);
    CodeReads(bl, w, RunCode(r), rest);
  }

  /** The symbols 286 and 287 have code words but no meaning. */
  lemma NoSuchLength(out: seq<byte>, last: bool, sym: nat, rest: seq<bool>)
    requires 286 <= sym < 288
    ensures Spec.Inflate(out, [last, true, false] + (FixedLiteral(sym) + rest)) == Spec.Err(1)
  {
    hide Spec.Inflate, Spec.ReadSymbol, Spec.InflateMatch, Spec.FixedLiterals, Spec.FixedDistances, FixedLiteral, Has,
      BookOf, CodeOf;
    FixedSpeaks();
    FixedWords(sym);
    FirstBlock(out, last, true, false, FixedLiteral(sym) + rest);
  }

  // ---- Every byte string can be said -----------------------------------------------------------------

  function Literals(s: seq<byte>): seq<Token> { seq(|s|, i requires 0 <= i < |s| => Literal(s[i])) }

  lemma {:induction false} LiteralsSay(out: seq<byte>, s: seq<byte>)
    ensures AllFit(out, Literals(s)) && AllSay(out, Literals(s)) == out + s
    decreases |s|
  {
    if s == [] {
      assert out + s == out;
    } else {
      assert Literals(s)[1..] == Literals(s[1..]);
      LiteralsSay(out + [s[0]], s[1..]);
      assert out + [s[0]] + s[1..] == out + s;
    }
  }

  /** A byte string in one stored block. */
  lemma StoredString(s: seq<byte>, pad: seq<bool>, rest: seq<bool>, bits: seq<bool>)
    requires |s| <= 0xffff && |pad| == 5 && |rest| % 8 == 0
    requires bits == pad + ToBits(|s|, 16) + ToBits(0xffff - |s|, 16) + BytesBits(s) + rest
    ensures Spec.Inflate([], [true, false, false] + bits) == Spec.Ok(s, rest)
  {
    hide *;
    WholeBytes(s, rest);
    StoredReads([], pad, s, rest);
    NothingPlus(s);
    KindNone([], bits);
    FirstBlock([], true, false, false, bits);
  }

  lemma WholeBytes(s: seq<byte>, rest: seq<bool>)
    requires |rest| % 8 == 0
    ensures (|BytesBits(s)| + |rest|) % 8 == 0
  {
  }

  lemma NothingPlus(s: seq<byte>)
    ensures [] + s == s
  {
  }

  /** A byte string as the literals of one fixed block. */
  lemma LiteralString(s: seq<byte>, rest: seq<bool>)
    ensures AllFit([], Literals(s))
    ensures Spec.Inflate([], [true, true, false] +
      (TokensBits(FixedLiteral, FixedDistance, [], Literals(s)) + rest)) == Spec.Ok(s, rest)
  {
    hide *;
    LiteralsSay([], s);
    NothingPlus(s);
    FixedReads([], Literals(s), rest);
    KindOne([], TokensBits(FixedLiteral, FixedDistance, [], Literals(s)) + rest);
    FirstBlock([], true, true, false, TokensBits(FixedLiteral, FixedDistance, [], Literals(s)) + rest);
  }

  // ---- The decoder itself --------------------------------------------------------------------------------

  /** inflate() on what a compressor wrote, with 16 bits or more behind it: everything is put out, and the input is left
      at the first byte behind. */
  method InflateWritten(g: Inflater, ghost bs: seq<Block>, ghost rest: seq<bool>) returns (o: Outcome)
    requires g.Valid() && g.window.output == []
    requires StreamFits([], 0, bs) && |rest| >= 16
    requires BytesBits(g.reader.input[g.reader.inptr..]) == StreamBits([], 0, bs) + rest
    modifies g.reader, g.window, g.window.slide, g.window.register
    ensures o == Return(0) && g.window.output == StreamSays([], 0, bs)
    ensures Xor(g.window.register.crc, Ones()) == Crc32(StreamSays([], 0, bs))
    ensures g.reader.inptr <= |g.reader.input|
    ensures 8 * (|g.reader.input| - g.reader.inptr) == |rest| - |rest| % 8
  {
    hide Spec.Inflate, StreamBits, StreamSays, StreamFits, BytesBits, Feed, Steps;
    StreamReads([], 0, bs, rest);
    o := InflateBlocks.Inflate(g);
  }
}
