// Bit strings, and the two numbers a bit string stands for.
//
// A bit string is listed in the order in which its bits leave the compressed
// stream.  The decoder's registers read such a string with its first bit least
// significant (`Lsb`); Huffman codes read it with its first bit most
// significant (`Msb`, section 3.1.1 of RFC 1951).
module Bits {

  type byte = x: nat | x < 256

  function Pow2(n: nat): (r: nat)
    ensures r >= 1
  {
    if n == 0 then 1 else 2 * Pow2(n - 1)
  }

  lemma Pow2IsOne()
    ensures Pow2(0) == 1
  {
  }

  lemma Pow2Add(a: nat, b: nat)
    ensures Pow2(a + b) == Pow2(a) * Pow2(b)
  {
    if a == 0 {
    } else {
      Pow2Add(a - 1, b);
    }
  }

  lemma Pow2Monotone(a: nat, b: nat)
    requires a <= b
    ensures Pow2(a) <= Pow2(b)
    decreases b
  {
    if a == b {
    } else {
      Pow2Monotone(a, b - 1);
    }
  }

  lemma Pow2StrictlyMonotone(a: nat, b: nat)
    requires a < b
    ensures Pow2(a) < Pow2(b)
  {
    Pow2Monotone(a, b - 1);
  }

  function Bit(b: bool): nat { if b then 1 else 0 }

  /** The number whose binary digits are `s`, least significant first. */
  function Lsb(s: seq<bool>): nat
  {
    if s == [] then 0 else Bit(s[0]) + 2 * Lsb(s[1..])
  }

  /** The `k` low bits of `n`, least significant first. */
  function ToBits(n: nat, k: nat): (s: seq<bool>)
    ensures |s| == k
  {
    if k == 0 then [] else [n % 2 == 1] + ToBits(n / 2, k - 1)
  }

  /** `s` read as a binary fraction, first bit most significant, scaled by Pow2(g). */
  function Pos(s: seq<bool>, g: nat): nat
    requires |s| <= g
  {
    if s == [] then 0 else (if s[0] then Pow2(g - 1) else 0) + Pos(s[1..], g - 1)
  }

  /** The number whose binary digits are `s`, most significant first. */
  function Msb(s: seq<bool>): nat { Pos(s, |s|) }

  function Zeros(n: nat): (s: seq<bool>)
    ensures |s| == n
  {
    seq(n, _ => false)
  }

  // ---- Lsb and ToBits -----------------------------------------------------

  lemma {:induction false} LsbBound(s: seq<bool>)
    ensures Lsb(s) < Pow2(|s|)
  {
    if s == [] {
    } else {
      LsbBound(s[1..]);
    }
  }

  lemma Double(p: nat, q: nat)
    ensures (2 * p) * q == 2 * (p * q)
  {
  }

  lemma {:induction false} LsbConcat(s: seq<bool>, t: seq<bool>)
    ensures Lsb(s + t) == Lsb(s) + Pow2(|s|) * Lsb(t)
  {
    if s == [] {
      assert s + t == t;
    } else {
      assert (s + t)[1..] == s[1..] + t;
      LsbConcat(s[1..], t);
      Double(Pow2(|s| - 1), Lsb(t));
    }
  }

  lemma {:induction false} MulStep(d: nat, a: nat, b: nat)
    requires a < b
    ensures d * a + d <= d * b
  {
    if a + 1 < b {
      MulStep(d, a, b - 1);
    }
  }

  lemma MulLe(a: nat, b: nat, u: nat)
    requires a <= b
    ensures a * u <= b * u
  {
    if a < b {
      MulStep(u, a, b);
    }
  }

  lemma CompareScaled(a: nat, b: nat, u: nat)
    requires u > 0
    ensures a * u > b * u <==> a > b
    ensures a * u < b * u <==> a < b
  {
    if a < b {
      MulStep(u, a, b);
    } else if b < a {
      MulStep(u, b, a);
    }
  }

  lemma Commute(u: nat, a: nat, b: nat)
    ensures u * a == a * u && u * b == b * u
  {
  }

  lemma DivModUnique(n: nat, d: nat, q: nat, r: nat)
    requires r < d && n == r + d * q
    ensures n / d == q && n % d == r
  {
    var q' := n / d;
    if q' < q {
      MulStep(d, q', q);
    } else if q < q' {
      MulStep(d, q, q');
    }
  }

  lemma DivModIs(n: nat, d: nat)
    requires d > 0
    ensures n == d * (n / d) + n % d && n % d < d && n / d >= 0
  {
  }

  /** Cutting a bit string is masking and shifting its number. */
  lemma LsbCut(s: seq<bool>, w: nat)
    requires w <= |s|
    ensures Lsb(s[..w]) == Lsb(s) % Pow2(w)
    ensures Lsb(s[w..]) == Lsb(s) / Pow2(w)
  {
    assert s == s[..w] + s[w..];
    LsbConcat(s[..w], s[w..]);
    LsbBound(s[..w]);
    DivModUnique(Lsb(s), Pow2(w), Lsb(s[w..]), Lsb(s[..w]));
  }

  lemma {:induction false} LsbInjective(s: seq<bool>, t: seq<bool>)
    requires |s| == |t| && Lsb(s) == Lsb(t)
    ensures s == t
  {
    if s == [] {
    } else {
      assert s[0] == t[0];
      LsbInjective(s[1..], t[1..]);
      assert s == [s[0]] + s[1..];
      assert t == [t[0]] + t[1..];
    }
  }

  lemma {:induction false} ToBitsOfLsb(s: seq<bool>)
    ensures ToBits(Lsb(s), |s|) == s
  {
    if s == [] {
    } else {
      ToBitsOfLsb(s[1..]);
      assert s == [s[0]] + s[1..];
    }
  }

  lemma {:induction false} LsbOfToBits(n: nat, k: nat)
    requires n < Pow2(k)
    ensures Lsb(ToBits(n, k)) == n
  {
    if k == 0 {
    } else {
      LsbOfToBits(n / 2, k - 1);
      assert ToBits(n, k)[1..] == ToBits(n / 2, k - 1);
    }
  }

  lemma {:induction false} LsbZeros(n: nat)
    ensures Lsb(Zeros(n)) == 0
  {
    if n == 0 {
    } else {
      LsbZeros(n - 1);
      assert Zeros(n)[1..] == Zeros(n - 1);
    }
  }

  lemma LsbPadded(s: seq<bool>, n: nat)
    ensures Lsb(s + Zeros(n)) == Lsb(s)
  {
    LsbConcat(s, Zeros(n));
    LsbZeros(n);
  }

  // ---- Shifts and masks ---------------------------------------------------

  /** i >> w */
  function Shr(i: nat, w: nat): nat
  {
    if w == 0 then i else Shr(i / 2, w - 1)
  }

  lemma {:induction false} ShrCut(s: seq<bool>, w: nat)
    requires w <= |s|
    ensures Shr(Lsb(s), w) == Lsb(s[w..])
  {
    if w > 0 {
      LsbHalf(s);
      hide Lsb;
      ShrCut(s[1..], w - 1);
      assert s[1..][w - 1..] == s[w..];
    } else {
      assert s[0..] == s;
    }
  }

  lemma LsbHalf(s: seq<bool>)
    requires s != []
    ensures Lsb(s) / 2 == Lsb(s[1..])
  {
  }

  /** i & mask_bits[w] */
  function LowBits(i: nat, w: nat): nat { i % Pow2(w) }

  lemma LowBitsDef(i: nat, w: nat)
    ensures LowBits(i, w) == i % Pow2(w)
  {
  }

  // ---- Pos ----------------------------------------------------------------

  lemma {:induction false} PosConcat(s: seq<bool>, t: seq<bool>, g: nat)
    requires |s| + |t| <= g
    ensures Pos(s + t, g) == Pos(s, g) + Pos(t, g - |s|)
  {
    if s == [] {
      assert s + t == t;
    } else {
      assert (s + t)[1..] == s[1..] + t;
      PosConcat(s[1..], t, g - 1);
    }
  }

  lemma {:induction false} PosBound(s: seq<bool>, g: nat)
    requires |s| <= g
    ensures Pos(s, g) + Pow2(g - |s|) <= Pow2(g)
  {
    if s == [] {
    } else {
      PosBound(s[1..], g - 1);
    }
  }

  lemma Distribute(a: nat, b: nat, p: nat)
    ensures (a + b) * p == a * p + b * p
  {
  }

  /** Pos is the code number, moved to the scale of a longer code. */
  lemma {:induction false} PosScale(s: seq<bool>, g: nat)
    requires |s| <= g
    ensures Pos(s, g) == Msb(s) * Pow2(g - |s|)
  {
    if s == [] {
    } else {
      PosScale(s[1..], g - 1);
      PosScale(s[1..], |s| - 1);
      Pow2Add(|s| - 1, g - |s|);
      Distribute(if s[0] then Pow2(|s| - 1) else 0, Msb(s[1..]), Pow2(g - |s|));
    }
  }

  lemma {:induction false} PosZeros(n: nat, g: nat)
    requires n <= g
    ensures Pos(Zeros(n), g) == 0
  {
    if n == 0 {
    } else {
      PosZeros(n - 1, g - 1);
      assert Zeros(n)[1..] == Zeros(n - 1);
    }
  }

  lemma PosPadded(s: seq<bool>, n: nat, g: nat)
    requires |s| + n <= g
    ensures Pos(s + Zeros(n), g) == Pos(s, g)
  {
    PosConcat(s, Zeros(n), g);
    PosZeros(n, g - |s|);
  }

  lemma {:induction false} PosZeroIsZeros(s: seq<bool>, g: nat)
    requires |s| <= g && Pos(s, g) == 0
    ensures s == Zeros(|s|)
  {
    if s == [] {
    } else {
      PosZeroIsZeros(s[1..], g - 1);
      assert s == [s[0]] + s[1..];
    }
  }

  /** Every extension of `s` lies in the interval that starts at Pos(s). */
  lemma PrefixInside(s: seq<bool>, t: seq<bool>, g: nat)
    requires s <= t && |t| <= g
    ensures Pos(s, g) <= Pos(t, g)
    ensures Pos(t, g) + Pow2(g - |t|) <= Pos(s, g) + Pow2(g - |s|)
  {
    hide Pos, Pow2;
    assert t == s + t[|s|..];
    PosConcat(s, t[|s|..], g);
    PosBound(t[|s|..], g - |s|);
  }

  /** A string that does not extend `s` lies wholly before or after that interval. */
  lemma {:induction false} NotPrefixOutside(s: seq<bool>, t: seq<bool>, g: nat)
    requires |s| <= |t| <= g && !(s <= t)
    ensures Pos(t, g) + Pow2(g - |t|) <= Pos(s, g) || Pos(s, g) + Pow2(g - |s|) <= Pos(t, g)
  {
    if s == [] {
      PosBound(t, g);
    } else if s[0] != t[0] {
      PosBound(s[1..], g - 1);
      PosBound(t[1..], g - 1);
    } else {
      assert s == [s[0]] + s[1..];
      assert t == [t[0]] + t[1..];
      NotPrefixOutside(s[1..], t[1..], g - 1);
    }
  }

  /** So an interval is entered only by extensions. */
  lemma InsideIsPrefix(s: seq<bool>, t: seq<bool>, g: nat)
    requires |s| <= |t| <= g
    requires Pos(s, g) <= Pos(t, g) < Pos(s, g) + Pow2(g - |s|)
    ensures s <= t
  {
    if !(s <= t) {
      NotPrefixOutside(s, t, g);
    }
  }

  lemma MsbAppend(s: seq<bool>, b: bool)
    ensures Msb(s + [b]) == 2 * Msb(s) + Bit(b)
  {
    var n := |s| + 1;
    PosConcat(s, [b], n);
    PosScale(s, n);
    assert Pow2(1) == 2 * Pow2(0);
    assert Pos([b], 1) == Bit(b) + Pos([b][1..], 0);
  }

  // ---- Bytes -----------------------------------------------------------------

  /** The bits of a byte string in the order in which DEFLATE reads them (section 3.1.1 of RFC 1951). */
  function BytesBits(s: seq<byte>): (r: seq<bool>)
    ensures |r| == 8 * |s|
  {
    if s == [] then [] else ToBits(s[0], 8) + BytesBits(s[1..])
  }

  lemma {:induction false} BytesBitsConcat(s: seq<byte>, t: seq<byte>)
    ensures BytesBits(s + t) == BytesBits(s) + BytesBits(t)
  {
    if s == [] {
      assert s + t == t;
    } else {
      assert (s + t)[1..] == s[1..] + t;
      BytesBitsConcat(s[1..], t);
    }
  }
}
