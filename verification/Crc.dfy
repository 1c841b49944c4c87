// The CRC-32 of boot/zBoot/misc.c: a table-driven update equals the bit-at-a-time
// shift register of section 8 of RFC 1952.
//
// A register is the string of its bits, least significant first, so that the
// exclusive-or, mask and shift of the C code are pointwise, prefix and suffix.
module Crc {
  import opened Bits

  type Word = s: seq<bool> | |s| == 32 witness Zeros(32)

  function Xor(a: seq<bool>, b: seq<bool>): (r: seq<bool>)
    requires |a| == |b|
    ensures |r| == |a|
  {
    seq(|a|, i requires 0 <= i < |a| => a[i] != b[i])
  }

  /** c >> n */
  function ShiftRight(c: Word, n: nat): Word
    requires n <= 32
  {
    c[n..] + Zeros(n)
  }

  /** The exponents of the generator polynomial below 32: line 291. */
  const TERMS: seq<nat> := [0, 1, 2, 4, 5, 7, 8, 10, 11, 12, 16, 22, 23, 26]

  /** The generator as a register: the coefficient of x^p is bit 31 - p. */
  function Poly(): Word { seq(32, i => 31 - i in TERMS) }

  /** One step of the shift register. */
  function Step(c: Word): Word
  {
    if c[0] then Xor(ShiftRight(c, 1), Poly()) else ShiftRight(c, 1)
  }

  function Steps(c: Word, n: nat): Word
    decreases n
  {
    if n == 0 then c else Step(Steps(c, n - 1))
  }

  function ByteBits(x: byte): Word { ToBits(x, 8) + Zeros(24) }

  /** Feed one byte to the register, least significant bit first. */
  function FeedByte(c: Word, x: byte): Word { Steps(Xor(c, ByteBits(x)), 8) }

  function Feed(c: Word, s: seq<byte>): Word
  {
    if s == [] then c else FeedByte(Feed(c, s[..|s| - 1]), s[|s| - 1])
  }

  function Ones(): Word { seq(32, _ => true) }

  /** The CRC of a byte string, as section 8 of RFC 1952 defines it. */
  function Crc32(s: seq<byte>): Word { Xor(Feed(Ones(), s), Ones()) }

  lemma {:induction false} FeedConcat(c: Word, s: seq<byte>, t: seq<byte>)
    ensures Feed(c, s + t) == Feed(Feed(c, s), t)
  {
    if t == [] {
      assert s + t == s;
    } else {
      assert (s + t)[..|s + t| - 1] == s + t[..|t| - 1];
      FeedConcat(c, s, t[..|t| - 1]);
    }
  }

  // ---- The register is linear -----------------------------------------------

  lemma StepXor(a: Word, b: Word)
    ensures Step(Xor(a, b)) == Xor(Step(a), Step(b))
  {
    assert Xor(a, b)[0] == (a[0] != b[0]);
    assert Step(Xor(a, b)) == Xor(Step(a), Step(b));
  }

  lemma {:induction false} StepsXor(a: Word, b: Word, n: nat)
    ensures Steps(Xor(a, b), n) == Xor(Steps(a, n), Steps(b, n))
    decreases n
  {
    if n > 0 {
      StepsXor(a, b, n - 1);
      StepXor(Steps(a, n - 1), Steps(b, n - 1));
    }
  }

  /** Bits that stay above the lowest place only move down. */
  lemma {:induction false} StepsHigh(c: Word, n: nat, k: nat)
    requires n <= k <= 32 && c[..k] == Zeros(k)
    ensures Steps(c, n) == ShiftRight(c, n)
    decreases n
  {
    if n == 0 {
      assert ShiftRight(c, 0) == c;
    } else {
      StepsHigh(c, n - 1, k);
      var d := ShiftRight(c, n - 1);
      assert d[0] == c[n - 1] == c[..k][n - 1];
      assert ShiftRight(d, 1) == ShiftRight(c, n);
    }
  }

  /** Eight steps depend on the low byte; the rest only moves down. */
  lemma EightSteps(c: Word)
    ensures Steps(c, 8) == Xor(Steps(c[..8] + Zeros(24), 8), ShiftRight(c, 8))
  {
    var low, high := c[..8] + Zeros(24), Zeros(8) + c[8..];
    assert c == Xor(low, high);
    StepsXor(low, high, 8);
    assert high[..8] == Zeros(8);
    StepsHigh(high, 8, 8);
    assert ShiftRight(high, 8) == ShiftRight(c, 8);
  }

  // ---- makecrc: lines 281-311 -----------------------------------------------

  /** The table entry for byte `i`: the register after feeding `i` to zero. */
  ghost predicate IsTable(tab: seq<Word>)
  {
    |tab| == 256 && forall i :: 0 <= i < 256 ==> tab[i] == TableEntry(i)
  }

  function TableEntry(i: byte): Word { Steps(ByteBits(i), 8) }

  method MakePattern() returns (e: Word)
    ensures e == Poly()
  {
    e := Zeros(32);
    var i := 0;
    while i < |TERMS|
      invariant 0 <= i <= |TERMS|
      invariant forall b :: 0 <= b < 32 ==> (e[b] <==> 31 - b in TERMS[..i])
    {
      e := e[31 - TERMS[i] := true];
      i := i + 1;
    }
    assert TERMS[..i] == TERMS;
  }

  /** Feeding zero changes nothing. */
  lemma {:induction false} StepsZero(n: nat)
    ensures Steps(Zeros(32), n) == Zeros(32)
    decreases n
  {
    if n > 0 {
      StepsZero(n - 1);
      assert ShiftRight(Zeros(32), 1) == Zeros(32);
    }
  }

  /** The low `t` bits of byte `i` as a register. */
  function LowPart(i: byte, t: nat): Word
    requires t <= 8
  {
    ToBits(i, 8)[..t] + Zeros(32 - t)
  }

  /** Bit `t` of the byte enters after t steps, as one more generator. */
  lemma TableStep(i: byte, t: nat)
    requires t < 8
    ensures Steps(LowPart(i, t + 1), t + 1)
         == if ToBits(i, 8)[t] then Xor(Step(Steps(LowPart(i, t), t)), Poly()) else Step(Steps(LowPart(i, t), t))
  {
    var bit := Zeros(t) + [ToBits(i, 8)[t]] + Zeros(31 - t);
    assert LowPart(i, t + 1) == Xor(LowPart(i, t), bit);
    StepsXor(LowPart(i, t), bit, t + 1);
    assert bit[..t] == Zeros(t);
    StepsHigh(bit, t, t);
    assert ShiftRight(bit, t) == [ToBits(i, 8)[t]] + Zeros(31);
    SingleBit(ToBits(i, 8)[t]);
    assert Steps(bit, t + 1) == Step(Steps(bit, t));
    XorZero(Step(Steps(LowPart(i, t), t)));
  }

  lemma SingleBit(b: bool)
    ensures Step([b] + Zeros(31)) == if b then Poly() else Zeros(32)
  {
    var z := ShiftRight([b] + Zeros(31), 1);
    assert z == Zeros(32);
    assert Xor(z, Poly()) == Poly();
  }

  lemma XorZero(a: Word)
    ensures Xor(a, Zeros(32)) == a
  {
  }

  lemma {:induction false} ShrNext(n: nat, t: nat)
    ensures Shr(n, t + 1) == Shr(n, t) / 2
  {
    if t > 0 {
      ShrNext(n / 2, t - 1);
    }
  }

  lemma {:induction false} ShrEnd(n: nat, t: nat)
    requires n < Pow2(t)
    ensures Shr(n, t) == 0
  {
    if t > 0 {
      ShrEnd(n / 2, t - 1);
    }
  }

  lemma {:induction false} NthBit(n: nat, k: nat, t: nat)
    requires t < k
    ensures ToBits(n, k)[t] == (Shr(n, t) % 2 == 1)
  {
    if t > 0 {
      NthBit(n / 2, k - 1, t - 1);
    }
  }

  /** The table entry for `i`: lines 302-309, where k = i | 256. */
  method MakeEntry(i: byte, e: Word) returns (c: Word)
    requires e == Poly()
    ensures c == TableEntry(i)
  {
    hide Steps, Shr, Pow2;
    c := Zeros(32);
    var k := i + 256;
    ghost var t := 0;
    StartEntry(i);
    while k != 1
      invariant t <= 8 && k == Shr(i, t) + Pow2(8 - t)
      invariant k == 1 <==> t == 8
      invariant c == Steps(LowPart(i, t), t)
      decreases 8 - t
    {
      EntryBit(i, t);
      TableStep(i, t);
      c := if c[0] then Xor(ShiftRight(c, 1), e) else ShiftRight(c, 1);
      if k % 2 == 1 {
        c := Xor(c, e);
      }
      k := k / 2;
      t := t + 1;
    }
    EndEntry(i);
  }

  lemma StartEntry(i: byte)
    ensures Shr(i, 0) + Pow2(8) == i + 256 != 1
    ensures Steps(LowPart(i, 0), 0) == Zeros(32)
  {
    assert LowPart(i, 0) == Zeros(32);
    assert Pow2(8) == 256;
  }

  lemma EntryBit(i: byte, t: nat)
    requires t < 8
    ensures ToBits(i, 8)[t] == ((Shr(i, t) + Pow2(8 - t)) % 2 == 1)
    ensures (Shr(i, t) + Pow2(8 - t)) / 2 == Shr(i, t + 1) + Pow2(7 - t)
    ensures Shr(i, t + 1) + Pow2(7 - t) == 1 <==> t == 7
  {
    NthBit(i, 8, t);
    ShrNext(i, t);
    assert Pow2(8 - t) == 2 * Pow2(7 - t);
    if t == 7 {
      ShrEnd(i, 8);
    } else {
      Pow2StrictlyMonotone(0, 7 - t);
    }
  }

  lemma EndEntry(i: byte)
    ensures LowPart(i, 8) == ByteBits(i)
  {
    assert ToBits(i, 8)[..8] == ToBits(i, 8);
  }

  method MakeCrc() returns (tab: array<Word>)
    ensures fresh(tab) && IsTable(tab[..])
  {
    hide Steps;
    var e := MakePattern();
    tab := new Word[256](_ => Zeros(32));
    EntryZero();
    tab[0] := Zeros(32);
    var i := 1;
    while i < 256
      invariant 1 <= i <= 256
      invariant forall j: byte :: j < i ==> tab[j] == TableEntry(j)
    {
      tab[i] := MakeEntry(i, e);
      i := i + 1;
    }
  }

  lemma EntryZero()
    ensures TableEntry(0) == Zeros(32)
  {
    ZeroBits(8);
    assert ByteBits(0) == Zeros(32);
    StepsZero(8);
  }

  lemma {:induction false} ZeroBits(k: nat)
    ensures ToBits(0, k) == Zeros(k)
  {
    if k > 0 {
      ZeroBits(k - 1);
    }
  }

  // ---- updcrc: lines 199-217 --------------------------------------------------

  /** The index ((int)c ^ x) & 0xff. */
  function TableIndex(c: Word, x: byte): nat
  {
    Lsb(Xor(c[..8], ToBits(x, 8)))
  }

  /** One table lookup feeds one byte. */
  lemma LookupFeeds(tab: seq<Word>, c: Word, x: byte)
    requires IsTable(tab)
    ensures TableIndex(c, x) < 256
    ensures Xor(tab[TableIndex(c, x)], ShiftRight(c, 8)) == FeedByte(c, x)
  {
    var low := Xor(c[..8], ToBits(x, 8));
    LsbBound(low);
    assert Pow2(8) == 256;
    hide Steps, Lsb, ToBits, Pow2;
    ToBitsOfLsb(low);
    EightSteps(Xor(c, ByteBits(x)));
    XorParts(c, x);
  }

  lemma XorParts(c: Word, x: byte)
    ensures Xor(c, ByteBits(x))[..8] == Xor(c[..8], ToBits(x, 8))
    ensures ShiftRight(Xor(c, ByteBits(x)), 8) == ShiftRight(c, 8)
  {
    hide ToBits;
  }

  /** The C function keeps `crc` in a static variable; a null pointer resets it. */
  class CrcRegister {
    var crc: Word
    const tab: array<Word>

    ghost predicate Valid()
      reads this, tab
    {
      IsTable(tab[..])
    }

    constructor ()
      ensures Valid() && fresh(tab) && crc == Ones()
    {
      var t := MakeCrc();
      tab := t;
      crc := Ones();
    }

    method Reset() returns (r: Word)
      requires Valid()
      modifies this
      ensures Valid() && crc == Ones() && r == Crc32([])
    {
      crc := Ones();
      r := Xor(crc, Ones());
    }

    method Update(s: array<byte>, n: nat) returns (r: Word)
      requires Valid() && n <= s.Length
      modifies this
      ensures Valid() && crc == Feed(old(crc), s[..n]) && r == Xor(crc, Ones())
    {
      hide Steps;
      var c := crc;
      ghost var c0 := crc;
      var i := 0;
      assert s[..0] == [];
      while i < n
        invariant i <= n && Valid() && crc == c0 && c == Feed(c0, s[..i])
      {
        LookupFeeds(tab[..], c, s[i]);
        assert s[..i + 1][..i] == s[..i];
        c := Xor(tab[TableIndex(c, s[i])], ShiftRight(c, 8));
        i := i + 1;
      }
      crc := c;
      r := Xor(c, Ones());
    }
  }

  /** Feeding a string in any number of pieces gives the CRC of the whole. */
  lemma CrcOfPieces(pieces: seq<seq<byte>>)
    ensures Xor(FeedAll(Ones(), pieces), Ones()) == Crc32(Flatten(pieces))
  {
    FeedAllIsFeed(Ones(), pieces);
  }

  function FeedAll(c: Word, pieces: seq<seq<byte>>): Word
    decreases pieces
  {
    if pieces == [] then c else FeedAll(Feed(c, pieces[0]), pieces[1..])
  }

  function Flatten(pieces: seq<seq<byte>>): seq<byte>
  {
    if pieces == [] then [] else pieces[0] + Flatten(pieces[1..])
  }

  lemma {:induction false} FeedAllIsFeed(c: Word, pieces: seq<seq<byte>>)
    ensures FeedAll(c, pieces) == Feed(c, Flatten(pieces))
    decreases pieces
  {
    if pieces != [] {
      FeedAllIsFeed(Feed(c, pieces[0]), pieces[1..]);
      FeedConcat(c, pieces[0], Flatten(pieces[1..]));
    }
  }
}
