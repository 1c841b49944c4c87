// The bit buffer of boot/zBoot/inflate.c: the globals bb and bk, the input
// pointer, and the macros NEEDBITS and DUMPBITS (lines 68-85).
module BitReader {
  import opened Bits

  /** Putting a byte above the `k` bits of the buffer appends its bits. */
  lemma AppendByte(b: nat, k: nat, x: byte)
    requires b < Pow2(k)
    ensures b + x * Pow2(k) < Pow2(k + 8)
    ensures ToBits(b + x * Pow2(k), k + 8) == ToBits(b, k) + ToBits(x, 8)
  {
    LsbOfToBits(b, k);
    assert Pow2(8) == 256;
    LsbOfToBits(x, 8);
    hide ToBits, Lsb, Pow2;
    LsbConcat(ToBits(b, k), ToBits(x, 8));
    FromLsb(ToBits(b, k) + ToBits(x, 8), b + Pow2(k) * x, k + 8);
    Swap(x, Pow2(k));
  }

  lemma FromLsb(s: seq<bool>, n: nat, k: nat)
    requires |s| == k && Lsb(s) == n
    ensures n < Pow2(k) && ToBits(n, k) == s
  {
    ToBitsOfLsb(s);
    LsbBound(s);
  }

  lemma Swap(x: nat, y: nat)
    ensures x * y == y * x
  {
  }

  /** Shifting the buffer down drops its first bits. */
  lemma DropBits(b: nat, k: nat, n: nat)
    requires b < Pow2(k) && n <= k
    ensures Shr(b, n) < Pow2(k - n)
    ensures ToBits(Shr(b, n), k - n) == ToBits(b, k)[n..]
  {
    var s := ToBits(b, k);
    LsbOfToBits(b, k);
    hide ToBits, Lsb, Pow2;
    ShrCut(s, n);
    ToBitsOfLsb(s[n..]);
    LsbBound(s[n..]);
  }

  lemma PeekBits(b: nat, k: nat, n: nat)
    requires b < Pow2(k) && n <= k
    ensures LowBits(b, n) == Lsb(ToBits(b, k)[..n]) < Pow2(n)
  {
    LsbOfToBits(b, k);
    LsbCut(ToBits(b, k), n);
    LsbBound(ToBits(b, k)[..n]);
  }

  class BitReader {
    const input: seq<byte>
    var inptr: nat
    var bb: nat
    var bk: nat

    constructor (input: seq<byte>)
      ensures Valid() && Rest() == BytesBits(input) && this.input == input && bk == 0 && inptr == 0
    {
      this.input := input;
      inptr, bb, bk := 0, 0, 0;
      new;
      assert Pow2(0) == 1;
      assert input[0..] == input;
    }

    /** The buffer holds fewer than 24 bits and nothing above them. */
    ghost predicate Valid()
      reads this
    {
      inptr <= |input| && bk <= 23 && bk <= 8 * inptr && bb < Pow2(bk)
    }

    /** The bits not yet consumed. */
    ghost function Rest(): (r: seq<bool>)
      reads this
      requires Valid()
      ensures |r| == bk + 8 * (|input| - inptr)
    {
      ToBits(bb, bk) + BytesBits(input[inptr..])
    }

    /** The next `n` bits as a number: b & mask_bits[n]. */
    function Peek(n: nat): nat
      reads this
    {
      LowBits(bb, n)
    }

    /** NEEDBITS(n); false if the input ends first, where the source halts. */
    method NeedBits(n: nat) returns (ok: bool)
      requires Valid() && n <= 16
      modifies this
      ensures Valid() && Rest() == old(Rest())
      ensures ok ==> n <= bk && Peek(n) == Lsb(Rest()[..n]) < Pow2(n)
      ensures !ok ==> |Rest()| < n
    {
      hide Pow2, Lsb, ToBits, LowBits;
      ghost var rest := Rest();
      while bk < n
        invariant Valid() && Rest() == rest
        decreases |input| - inptr
      {
        if inptr == |input| {
          return false;
        }
        ghost var k, tail := bk, input[inptr + 1..];
        AppendByte(bb, bk, input[inptr]);
        assert input[inptr..][1..] == tail;
        bb := bb + input[inptr] * Pow2(bk);
        bk := bk + 8;
        inptr := inptr + 1;
      }
      ok := true;
      PeekBits(bb, bk, n);
      assert Rest()[..n] == ToBits(bb, bk)[..n];
    }

    /** DUMPBITS(n) */
    method DumpBits(n: nat)
      requires Valid() && n <= bk
      modifies this
      ensures Valid() && Rest() == old(Rest())[n..]
      ensures bk == old(bk) - n && inptr == old(inptr)
    {
      hide Pow2, Lsb, ToBits, LowBits, Shr;
      DropBits(bb, bk, n);
      bb := Shr(bb, n);
      bk := bk - n;
    }

    /** Give back whole bytes read ahead: lines 796-799. */
    method UndoLookahead()
      requires Valid()
      modifies this
      ensures inptr <= |input|
      ensures 8 * (|input| - inptr) == |old(Rest())| - |old(Rest())| % 8
    {
      ghost var total := 8 * inptr - bk;
      while bk >= 8
        invariant 8 * inptr - bk == total && inptr <= |input| && 8 * inptr >= bk
      {
        bk := bk - 8;
        inptr := inptr - 1;
      }
    }
  }
}
