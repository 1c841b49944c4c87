// The register of Crc.dfy as the 32-bit word it is in the C code, and the check
// value: a string with its own CRC behind it always leaves the same word.
module CrcNumbers {
  import opened Bits
  import opened Crc

  const GENERATOR: bv32 := 0xEDB88320

  /** The k low bits of a word, least significant first. */
  function BitsOf(x: bv32, k: nat): (s: seq<bool>)
    ensures |s| == k
  {
    if k == 0 then [] else [Odd(x)] + BitsOf(Half(x), k - 1)
  }

  predicate Odd(x: bv32) { x & 1 == 1 }

  function Half(x: bv32): bv32 { x >> 1 }

  function Register(x: bv32): Word { BitsOf(x, 32) }

  /** Line 305 of misc.c: shift, and exclusive-or the generator if a one falls out. */
  function StepWord(x: bv32): bv32
  {
    if x & 1 == 1 then (x >> 1) ^ GENERATOR else x >> 1
  }

  // ---- The generator ------------------------------------------------------------

  lemma TermsAre(p: int)
    ensures p in TERMS <==> p in {0, 1, 2, 4, 5, 7, 8, 10, 11, 12, 16, 22, 23, 26}
  {
    assert TERMS[0] == 0 && TERMS[1] == 1 && TERMS[2] == 2 && TERMS[3] == 4 && TERMS[4] == 5 && TERMS[5] == 7;
    assert TERMS[6] == 8 && TERMS[7] == 10 && TERMS[8] == 11 && TERMS[9] == 12 && TERMS[10] == 16 && TERMS[11] == 22;
    assert TERMS[12] == 23 && TERMS[13] == 26;
  }

  lemma PolyAt(i: nat)
    requires i < 32
    ensures Poly()[i] == InPoly(i)
  {
    TermsAre(31 - i);
  }

  predicate InPoly(i: nat) { i in {5, 8, 9, 15, 19, 20, 21, 23, 24, 26, 27, 29, 30, 31} }

  lemma FourBits(s: seq<bool>)
    requires |s| == 4
    ensures Lsb(s) == Bit(s[0]) + 2 * Bit(s[1]) + 4 * Bit(s[2]) + 8 * Bit(s[3])
  {
    var a := s[1..];
    var b := a[1..];
    var c := b[1..];
    assert c[1..] == [];
    assert Lsb(c) == Bit(s[3]);
    assert Lsb(b) == Bit(s[2]) + 2 * Lsb(c);
    assert Lsb(a) == Bit(s[1]) + 2 * Lsb(b);
  }

  /** One hexadecimal digit of the generator. */
  function PolyDigit(k: nat): nat
  {
    Bit(InPoly(k)) + 2 * Bit(InPoly(k + 1)) + 4 * Bit(InPoly(k + 2)) + 8 * Bit(InPoly(k + 3))
  }

  lemma NextDigit(k: nat)
    requires k <= 28
    ensures Lsb(Poly()[..k + 4]) == Lsb(Poly()[..k]) + Pow2(k) * PolyDigit(k)
  {
    hide Poly, Lsb, InPoly, Pow2;
    var p := Poly();
    assert p[..k + 4] == p[..k] + p[k..k + 4];
    LsbConcat(p[..k], p[k..k + 4]);
    FourBits(p[k..k + 4]);
    PolyAt(k);
    PolyAt(k + 1);
    PolyAt(k + 2);
    PolyAt(k + 3);
  }

  lemma PowersOf16()
    ensures Pow2(0) == 1 && Pow2(4) == 0x10 && Pow2(8) == 0x100 && Pow2(12) == 0x1000
    ensures Pow2(16) == 0x1_0000 && Pow2(20) == 0x10_0000 && Pow2(24) == 0x100_0000 && Pow2(28) == 0x1000_0000
  {
    assert Pow2(4) == 0x10;
    Pow2Add(4, 4);
    Pow2Add(8, 4);
    Pow2Add(8, 8);
    Pow2Add(16, 4);
    Pow2Add(16, 8);
    Pow2Add(16, 12);
  }

  lemma LowDigits()
    ensures Lsb(Poly()[..16]) == 0x8320
  {
    hide Poly, Lsb, Pow2;
    PowersOf16();
    NextDigit(0);
    NextDigit(4);
    NextDigit(8);
    NextDigit(12);
    assert Lsb([]) == 0 by { LsbZeros(0); }
    assert Poly()[..0] == [];
  }

  lemma HighDigits()
    ensures Lsb(Poly()[..32]) == Lsb(Poly()[..16]) + 0x1_0000 * 0xEDB8
  {
    hide Poly, Lsb, Pow2;
    PowersOf16();
    NextDigit(16);
    NextDigit(20);
    NextDigit(24);
    NextDigit(28);
  }

  /** The exponents of the C code give the generator of section 8 of RFC 1952. */
  lemma GeneratorIs()
    ensures Lsb(Poly()) == 0xEDB88320
  {
    hide Poly, Lsb;
    LowDigits();
    HighDigits();
    assert Poly()[..32] == Poly();
  }

  lemma PolyFour(k: nat, x: bv32)
    requires k <= 28 && Poly()[k + 4..] == BitsOf(x >> 4, 28 - k)
    requires InPoly(k) == (x & 1 == 1) && InPoly(k + 1) == (x & 2 == 2)
    requires InPoly(k + 2) == (x & 4 == 4) && InPoly(k + 3) == (x & 8 == 8)
    ensures Poly()[k..] == BitsOf(x, 32 - k)
  {
    hide *;
    FourLow(x, 28 - k);
    PolyFrom(k);
  }

  lemma PolyFrom(k: nat)
    requires k <= 28
    ensures Poly()[k..] == [InPoly(k), InPoly(k + 1), InPoly(k + 2), InPoly(k + 3)] + Poly()[k + 4..]
  {
    hide Poly, InPoly;
    PolyAt(k);
    PolyAt(k + 1);
    PolyAt(k + 2);
    PolyAt(k + 3);
  }

  lemma FourLow(x: bv32, k: nat)
    ensures BitsOf(x, k + 4) == [x & 1 == 1, x & 2 == 2, x & 4 == 4, x & 8 == 8] + BitsOf(x >> 4, k)
  {
    hide Odd, Half;
    var y := Half(x);
    var z := Half(y);
    var u := Half(z);
    FourOdd(x);
    assert BitsOf(u, k + 1) == [Odd(u)] + BitsOf(Half(u), k);
    assert BitsOf(z, k + 2) == [Odd(z)] + BitsOf(u, k + 1);
    assert BitsOf(y, k + 3) == [Odd(y)] + BitsOf(z, k + 2);
  }

  lemma FourOdd(x: bv32)
    ensures Odd(x) == (x & 1 == 1) && Odd(Half(x)) == (x & 2 == 2)
    ensures Odd(Half(Half(x))) == (x & 4 == 4) && Odd(Half(Half(Half(x)))) == (x & 8 == 8)
    ensures Half(Half(Half(Half(x)))) == x >> 4
  {
    hide *;
    Halves(x);
    OddAt(x);
  }

  lemma Halves(x: bv32)
    ensures Half(x) == x >> 1 && Half(Half(x)) == x >> 2 && Half(Half(Half(x))) == x >> 3
    ensures Half(Half(Half(Half(x)))) == x >> 4
  {
    hide Odd, BitsOf;
    Shifts(x);
  }

  lemma OddAt(x: bv32)
    ensures Odd(x) == (x & 1 == 1) && Odd(x >> 1) == (x & 2 == 2)
    ensures Odd(x >> 2) == (x & 4 == 4) && Odd(x >> 3) == (x & 8 == 8)
  {
    hide Half, BitsOf;
    Shifts(x);
  }

  lemma Shifts(x: bv32)
    ensures (x >> 1) >> 1 == x >> 2 && (x >> 2) >> 1 == x >> 3 && (x >> 3) >> 1 == x >> 4
    ensures ((x >> 1) & 1 == 1) == (x & 2 == 2)
    ensures ((x >> 2) & 1 == 1) == (x & 4 == 4)
    ensures ((x >> 3) & 1 == 1) == (x & 8 == 8)
    ensures (x >> 4) >> 4 == x >> 8 && (((x >> 8) >> 8) >> 8) >> 8 == 0
  {
  }

  lemma PolyIs()
    ensures Poly() == Register(GENERATOR)
  {
    hide Poly, BitsOf;
    assert Poly()[32..] == BitsOf(0, 0);
    PolyFour(28, 0xE);
    PolyFour(24, 0xED);
    PolyFour(20, 0xEDB);
    PolyFour(16, 0xEDB8);
    PolyFour(12, 0xEDB88);
    PolyFour(8, 0xEDB883);
    PolyFour(4, 0xEDB8832);
    PolyFour(0, 0xEDB88320);
    assert Poly()[0..] == Poly();
  }

  // ---- Steps on words -------------------------------------------------------------

  predicate IsXor(x: bv32, y: bv32, z: bv32) { z == x ^ y }

  lemma {:induction false} XorBits(x: bv32, y: bv32, z: bv32, k: nat)
    requires IsXor(x, y, z)
    ensures BitsOf(z, k) == Xor(BitsOf(x, k), BitsOf(y, k))
    decreases k
  {
    hide Odd, Half, IsXor, Xor;
    if k > 0 {
      XorBits(Half(x), Half(y), Half(z), k - 1) by { XorBit(x, y, z); }
      XorBit(x, y, z);
      PlusBit(Odd(x), BitsOf(Half(x), k - 1), Odd(y), BitsOf(Half(y), k - 1));
    } else {
      assert Xor([], []) == [];
    }
  }

  lemma PlusBit(b: bool, s: seq<bool>, c: bool, t: seq<bool>)
    requires |s| == |t|
    ensures Xor([b] + s, [c] + t) == [b != c] + Xor(s, t)
  {
  }

  lemma XorBit(x: bv32, y: bv32, z: bv32)
    requires IsXor(x, y, z)
    ensures Odd(z) == (Odd(x) != Odd(y)) && IsXor(Half(x), Half(y), Half(z))
  {
    hide BitsOf;
  }

  function Drop(x: bv32, k: nat): bv32
  {
    if k == 0 then x else Drop(Half(x), k - 1)
  }

  lemma {:induction false} NextBit(x: bv32, k: nat)
    ensures BitsOf(x, k + 1) == BitsOf(x, k) + [Odd(Drop(x, k))]
    decreases k
  {
    hide Odd, Half;
    if k > 0 {
      NextBit(Half(x), k - 1);
    } else {
      assert BitsOf(Half(x), 0) == [];
    }
  }

  lemma {:induction false} DropAdd(x: bv32, a: nat, b: nat)
    ensures Drop(Drop(x, a), b) == Drop(x, a + b)
    decreases a
  {
    hide Half;
    if a > 0 {
      DropAdd(Half(x), a - 1, b);
    }
  }

  lemma DropFour(x: bv32)
    ensures Drop(x, 4) == x >> 4
  {
    hide Half;
    var y := Half(x);
    var z := Half(y);
    var u := Half(z);
    assert Drop(u, 1) == Drop(Half(u), 0);
    assert Drop(z, 2) == Drop(u, 1);
    assert Drop(y, 3) == Drop(z, 2);
    FourOdd(x);
  }

  lemma DropEight(x: bv32)
    ensures Drop(x, 8) == x >> 8
  {
    hide Drop;
    DropFour(x);
    DropFour(x >> 4);
    DropAdd(x, 4, 4);
    Shifts(x);
  }

  lemma NoneLeft(x: bv32)
    ensures Drop(x, 32) == 0
  {
    hide Drop;
    var a := x >> 8;
    var b := a >> 8;
    var c := b >> 8;
    Shifts(x);
    DropEight(x);
    DropEight(a);
    DropEight(b);
    DropEight(c);
    DropAdd(x, 8, 8);
    DropAdd(x, 16, 8);
    DropAdd(x, 24, 8);
  }

  lemma ShiftIs(x: bv32)
    ensures Register(x)[0] == Odd(x) && ShiftRight(Register(x), 1) == Register(Half(x))
  {
    hide Drop, Half, Odd;
    NextBit(Half(x), 31);
    NoneLeft(x);
    DropOne(x, 31);
    NotOdd();
    assert Register(x)[1..] == BitsOf(Half(x), 31);
    assert Zeros(1) == [false];
  }

  lemma NotOdd()
    ensures !Odd(0)
  {
  }

  lemma DropOne(x: bv32, k: nat)
    ensures Drop(Half(x), k) == Drop(x, k + 1)
  {
  }

  /** One step of the shift register is the step of the C code. */
  lemma StepIs(x: bv32)
    ensures Step(Register(x)) == Register(StepWord(x))
  {
    hide Poly, Xor, ShiftRight, BitsOf;
    ShiftIs(x);
    XorBits(Half(x), GENERATOR, Half(x) ^ GENERATOR, 32);
    PolyIs();
  }

  function StepWords(x: bv32, n: nat): bv32
    decreases n
  {
    if n == 0 then x else StepWord(StepWords(x, n - 1))
  }

  lemma {:induction false} StepsAre(x: bv32, n: nat)
    ensures Steps(Register(x), n) == Register(StepWords(x, n))
    decreases n
  {
    hide Step, StepWord, Register;
    if n > 0 {
      StepsAre(x, n - 1);
      StepIs(StepWords(x, n - 1));
    }
  }

  lemma {:induction false} StepWordsAdd(x: bv32, m: nat, n: nat)
    ensures StepWords(StepWords(x, m), n) == StepWords(x, m + n)
    decreases n
  {
    hide StepWord;
    if n > 0 {
      StepWordsAdd(x, m, n - 1);
    }
  }

  lemma FourSteps(x: bv32)
    ensures StepWords(x, 4) == StepWord(StepWord(StepWord(StepWord(x))))
  {
    hide StepWord;
    assert StepWords(x, 2) == StepWord(StepWord(x));
  }

  /** 32 steps from all ones. */
  lemma OnesSteps()
    ensures StepWords(0xFFFFFFFF, 32) == 0xDEBB20E3
  {
    hide StepWords;
    SixteenSteps(0xFFFFFFFF);
    SixteenSteps(0xBE26ED00);
    StepWordsAdd(0xFFFFFFFF, 16, 16);
  }

  lemma SixteenSteps(x: bv32)
    ensures StepWords(x, 16) == Four(Four(Four(Four(x))))
  {
    hide StepWords, StepWord;
    FourSteps(x);
    FourSteps(Four(x));
    FourSteps(Four(Four(x)));
    FourSteps(Four(Four(Four(x))));
    StepWordsAdd(x, 4, 4);
    StepWordsAdd(x, 8, 4);
    StepWordsAdd(x, 12, 4);
  }

  function Four(x: bv32): bv32 { StepWord(StepWord(StepWord(StepWord(x)))) }

  // ---- A string with its CRC behind it ----------------------------------------------

  lemma {:induction false} StepsSum(c: Word, m: nat, n: nat)
    ensures Steps(Steps(c, m), n) == Steps(c, m + n)
    decreases n
  {
    hide Step;
    if n > 0 {
      StepsSum(c, m, n - 1);
    }
  }

  /** Up to four bytes as the low end of a register. */
  function Loaded(xs: seq<byte>): Word
    requires |xs| <= 4
  {
    BytesBits(xs) + Zeros(32 - 8 * |xs|)
  }

  /** Feeding up to four bytes one after the other is feeding them at once. */
  lemma {:induction false} FeedLoaded(c: Word, xs: seq<byte>)
    requires |xs| <= 4
    ensures Feed(c, xs) == Steps(Xor(c, Loaded(xs)), 8 * |xs|)
    decreases |xs|
  {
    hide Steps, BytesBits, ToBits;
    if xs == [] {
      XorZero(c);
      assert BytesBits([]) == [] && Loaded([]) == Zeros(32);
      NoSteps(c);
    } else {
      var n := |xs| - 1;
      var a, v := Xor(c, Loaded(xs[..n])), Zeros(8 * n) + ToBits(xs[n], 8) + Zeros(24 - 8 * n);
      FeedLoaded(c, xs[..n]);
      StepsHigh(v, 8 * n, 8 * n) by { assert v[..8 * n] == Zeros(8 * n); }
      assert ShiftRight(v, 8 * n) == ByteBits(xs[n]);
      StepsXor(a, v, 8 * n);
      LoadedNext(xs);
      XorAssoc(c, Loaded(xs[..n]), v);
      StepsSum(Xor(c, Loaded(xs)), 8 * n, 8);
    }
  }

  lemma NoSteps(c: Word)
    ensures Steps(c, 0) == c
  {
  }

  lemma LoadedNext(xs: seq<byte>)
    requires 1 <= |xs| <= 4
    ensures var n := |xs| - 1;
      Loaded(xs) == Xor(Loaded(xs[..n]), Zeros(8 * n) + ToBits(xs[n], 8) + Zeros(24 - 8 * n))
  {
    hide ToBits, BytesBits;
    var n := |xs| - 1;
    var x := xs[n];
    BytesBitsConcat(xs[..n], [x]);
    OneByte(x);
    assert xs == xs[..n] + [x];
  }

  lemma OneByte(x: byte)
    ensures BytesBits([x]) == ToBits(x, 8)
  {
    assert BytesBits([]) == [];
  }

  lemma XorAssoc(a: seq<bool>, b: seq<bool>, c: seq<bool>)
    requires |a| == |b| == |c|
    ensures Xor(Xor(a, b), c) == Xor(a, Xor(b, c))
  {
  }

  /** The four bytes of a register, low byte first, as a gzip file stores its CRC. */
  function RegisterBytes(w: Word): (s: seq<byte>)
    ensures |s| == 4
  {
    seq(4, i requires 0 <= i < 4 => ByteOf(w[8 * i..8 * i + 8]))
  }

  function ByteOf(s: seq<bool>): byte
    requires |s| == 8
  {
    LsbBound(s);
    assert Pow2(8) == 256;
    Lsb(s)
  }

  lemma BytesBack(w: Word)
    ensures BytesBits(RegisterBytes(w)) == w
  {
    hide BytesBits, Lsb, ToBits;
    var s := RegisterBytes(w);
    assert s == [s[0]] + ([s[1]] + ([s[2]] + [s[3]]));
    BytesBitsConcat([s[0]], [s[1]] + ([s[2]] + [s[3]]));
    BytesBitsConcat([s[1]], [s[2]] + [s[3]]);
    BytesBitsConcat([s[2]], [s[3]]);
    forall i | 0 <= i < 4
      ensures BytesBits([s[i]]) == w[8 * i..8 * i + 8]
    {
      OneByte(s[i]);
      ToBitsOfLsb(w[8 * i..8 * i + 8]);
    }
    assert w == w[0..8] + (w[8..16] + (w[16..24] + w[24..32]));
  }

  function Trues(k: nat): (s: seq<bool>)
    ensures |s| == k
  {
    seq(k, _ => true)
  }

  lemma FourOnes(x: bv32, k: nat)
    requires x & 15 == 15 && BitsOf(x >> 4, k) == Trues(k)
    ensures BitsOf(x, k + 4) == Trues(k + 4)
  {
    hide BitsOf;
    FourLow(x, k);
    LowDigit(x);
  }

  lemma LowDigit(x: bv32)
    requires x & 15 == 15
    ensures x & 1 == 1 && x & 2 == 2 && x & 4 == 4 && x & 8 == 8
  {
  }

  lemma AllOnes()
    ensures Register(0xFFFFFFFF) == Ones()
  {
    hide BitsOf;
    assert BitsOf(0, 0) == Trues(0);
    FourOnes(0xF, 0);
    FourOnes(0xFF, 4);
    FourOnes(0xFFF, 8);
    FourOnes(0xFFFF, 12);
    FourOnes(0xFFFFF, 16);
    FourOnes(0xFFFFFF, 20);
    FourOnes(0xFFFFFFF, 24);
    FourOnes(0xFFFFFFFF, 28);
  }

  /** Any string followed by its own CRC leaves the register at the same word. */
  lemma CheckValue(s: seq<byte>)
    ensures Feed(Ones(), s + RegisterBytes(Crc32(s))) == Register(0xDEBB20E3)
  {
    hide Feed, Steps, RegisterBytes, Register, StepWords;
    var c, t := Feed(Ones(), s), RegisterBytes(Crc32(s));
    FeedConcat(Ones(), s, t);
    FeedLoaded(c, t);
    BytesBack(Crc32(s));
    assert Loaded(t) == Xor(c, Ones());
    assert Xor(c, Xor(c, Ones())) == Ones();
    AllOnes();
    StepsAre(0xFFFFFFFF, 32);
    OnesSteps();
  }
}
