// lib/libxc/blkcopy.s: a block copy that works for overlapping blocks by
// choosing its direction, in whole words but for the odd bytes.
module Blkcopy {
  import opened Bits

  const WORD := 0x1_0000_0000
  const HALF := 0x8000_0000

  /** An address as the signed comparison of line 25 takes it. */
  function Signed(a: nat): int
  {
    if a < HALF then a else a - WORD
  }

  /** One step of movsl or movsb: w bytes are loaded, then stored. */
  function Moved<T>(s: seq<T>, di: nat, si: nat, w: nat): (r: seq<T>)
    requires di + w <= |s| && si + w <= |s|
    ensures |r| == |s|
  {
    s[..di] + s[si..si + w] + s[di + w..]
  }

  /** A stretch of bytes made of units of w bytes. */
  predicate Units(len: nat, w: nat)
  {
    w == 1 || (w == 4 && len % 4 == 0)
  }

  /** rep movs with the direction flag clear, over a stretch of `len` bytes. */
  function Upward<T>(s: seq<T>, di: nat, si: nat, w: nat, len: nat): (r: seq<T>)
    requires di + len <= |s| && si + len <= |s| && Units(len, w)
    ensures |r| == |s|
    decreases len
  {
    if len == 0 then s else Upward(Moved(s, di, si, w), di + w, si + w, w, len - w)
  }

  /** rep movs with the direction flag set: the last unit of the stretch first. */
  function Downward<T>(s: seq<T>, di: nat, si: nat, w: nat, len: nat): (r: seq<T>)
    requires di + len <= |s| && si + len <= |s| && Units(len, w)
    ensures |r| == |s|
    decreases len
  {
    if len == 0 then s else Downward(Moved(s, di + (len - w), si + (len - w), w), di, si, w, len - w)
  }

  /** What blkcopy leaves in memory. */
  function Outcome<T>(s: seq<T>, dst: nat, src: nat, count: nat): (r: seq<T>)
    requires dst + count <= |s| && src + count <= |s|
    ensures |r| == |s|
  {
    var words := count - count % 4;
    if Signed(src) <= Signed(dst) then
      Downward(Downward(s, dst + words, src + words, 1, count % 4), dst, src, 4, words)
    else
      Upward(Upward(s, dst, src, 4, words), dst + words, src + words, 1, count % 4)
  }

  /** The byte the copy should leave at a. */
  function Wanted<T>(s: seq<T>, dst: nat, src: nat, count: nat, a: nat): T
    requires dst + count <= |s| && src + count <= |s| && a < |s|
  {
    if dst <= a < dst + count then s[src + (a - dst)] else s[a]
  }

  /** The copy asked for: the destination holds the source's old bytes, and nothing else changes. */
  ghost predicate Copied<T>(s: seq<T>, r: seq<T>, dst: nat, src: nat, count: nat)
    requires dst + count <= |s| && src + count <= |s|
  {
    && |r| == |s|
    && forall a :: 0 <= a < |s| ==> r[a] == Wanted(s, dst, src, count, a)
  }

  lemma MovedAt<T>(s: seq<T>, di: nat, si: nat, w: nat, a: nat)
    requires di + w <= |s| && si + w <= |s| && a < |s|
    ensures Moved(s, di, si, w)[a] == Wanted(s, di, si, w, a)
  {
  }

  /** Two adjoining stretches, each copied right, make a block copied right, if the first leaves the second's source
      alone. */
  lemma LowFirst<T>(s: seq<T>, s1: seq<T>, s2: seq<T>, dst: nat, src: nat, cut: nat, count: nat)
    requires cut <= count && dst + count <= |s| && src + count <= |s|
    requires Copied(s, s1, dst, src, cut) && Copied(s1, s2, dst + cut, src + cut, count - cut)
    requires dst <= src || src + count <= dst
    ensures Copied(s, s2, dst, src, count)
  {
    forall a | 0 <= a < |s|
      ensures s2[a] == Wanted(s, dst, src, count, a)
    {
      assert s2[a] == Wanted(s1, dst + cut, src + cut, count - cut, a);
      var b := if dst + cut <= a < dst + count then src + (a - dst) else a;
      assert s2[a] == s1[b];
      assert s1[b] == Wanted(s, dst, src, cut, b);
    }
  }

  lemma HighFirst<T>(s: seq<T>, s1: seq<T>, s2: seq<T>, dst: nat, src: nat, cut: nat, count: nat)
    requires cut <= count && dst + count <= |s| && src + count <= |s|
    requires Copied(s, s1, dst + cut, src + cut, count - cut) && Copied(s1, s2, dst, src, cut)
    requires src <= dst || dst + count <= src
    ensures Copied(s, s2, dst, src, count)
  {
    forall a | 0 <= a < |s|
      ensures s2[a] == Wanted(s, dst, src, count, a)
    {
      assert s2[a] == Wanted(s1, dst, src, cut, a);
      var b := if dst <= a < dst + cut then src + (a - dst) else a;
      assert s2[a] == s1[b];
      assert s1[b] == Wanted(s, dst + cut, src + cut, count - cut, b);
    }
  }

  lemma MovedCopied<T>(s: seq<T>, di: nat, si: nat, w: nat)
    requires di + w <= |s| && si + w <= |s|
    ensures Copied(s, Moved(s, di, si, w), di, si, w)
  {
    forall a | 0 <= a < |s|
      ensures Moved(s, di, si, w)[a] == Wanted(s, di, si, w, a)
    {
      MovedAt(s, di, si, w, a);
    }
  }

  lemma CopiedNone<T>(s: seq<T>, di: nat, si: nat)
    requires di <= |s| && si <= |s|
    ensures Copied(s, s, di, si, 0)
  {
  }

  /** Moving upwards is right when no byte is written before it is read. */
  lemma {:induction false} UpwardCopies<T>(s: seq<T>, di: nat, si: nat, w: nat, len: nat)
    requires di + len <= |s| && si + len <= |s| && Units(len, w) && (di <= si || si + len <= di)
    ensures Copied(s, Upward(s, di, si, w, len), di, si, len)
    decreases len
  {
    hide Copied, Moved;
    if len == 0 {
      CopiedNone(s, di, si);
    } else {
      var s1 := Moved(s, di, si, w);
      MovedCopied(s, di, si, w);
      UpwardCopies(s1, di + w, si + w, w, len - w);
      LowFirst(s, s1, Upward(s, di, si, w, len), di, si, w, len);
    }
  }

  /** Moving downwards is right when no byte is written before it is read. */
  lemma {:induction false} DownwardCopies<T>(s: seq<T>, di: nat, si: nat, w: nat, len: nat)
    requires di + len <= |s| && si + len <= |s| && Units(len, w) && (si <= di || di + len <= si)
    ensures Copied(s, Downward(s, di, si, w, len), di, si, len)
    decreases len
  {
    hide Copied, Moved;
    if len == 0 {
      CopiedNone(s, di, si);
    } else {
      var s1 := Moved(s, di + len - w, si + len - w, w);
      MovedCopied(s, di + len - w, si + len - w, w);
      DownwardCopies(s1, di, si, w, len - w);
      HighFirst(s, s1, Downward(s, di, si, w, len), di, si, len - w, len);
    }
  }

  /** The blocks lie where the signed comparison is as good as an unsigned one, or do not overlap. */
  predicate Comparable(dst: nat, src: nat, count: nat)
  {
    (dst < HALF <==> src < HALF) || dst + count <= src || src + count <= dst
  }

  /** For every overlap of comparable blocks the copy is right. */
  lemma OutcomeCopies<T>(s: seq<T>, dst: nat, src: nat, count: nat)
    requires dst + count <= |s| <= WORD && src + count <= |s| && Comparable(dst, src, count)
    ensures Copied(s, Outcome(s, dst, src, count), dst, src, count)
  {
    hide Copied, Upward, Downward;
    var words := count - count % 4;
    assert words % 4 == 0;
    if Signed(src) <= Signed(dst) {
      assert src <= dst || dst + count <= src;
      var s1 := Downward(s, dst + words, src + words, 1, count % 4);
      DownwardCopies(s, dst + words, src + words, 1, count % 4);
      DownwardCopies(s1, dst, src, 4, words);
      HighFirst(s, s1, Downward(s1, dst, src, 4, words), dst, src, words, count);
    } else {
      assert dst <= src || src + count <= dst;
      var s1 := Upward(s, dst, src, 4, words);
      UpwardCopies(s, dst, src, 4, words);
      UpwardCopies(s1, dst + words, src + words, 1, count % 4);
      LowFirst(s, s1, Upward(s1, dst + words, src + words, 1, count % 4), dst, src, words, count);
    }
  }

  // ---- The addresses it gets wrong -----------------------------------------

  lemma FirstUnit(len: nat, w: nat)
    requires Units(len, w) && len > 0
    ensures (w == 1 || w == 4) && len >= w && Units(len - w, w)
  {
  }

  lemma UpFirst<T>(s: seq<T>, di: nat, si: nat, w: nat, len: nat)
    requires di + len <= |s| && si + len <= |s| && Units(len, w) && len > 0
    ensures len >= w && Units(len - w, w)
    ensures Upward(s, di, si, w, len) == Upward(Moved(s, di, si, w), di + w, si + w, w, len - w)
  {
    FirstUnit(len, w);
    hide Units, Moved;
  }

  lemma DownFirst<T>(s: seq<T>, di: nat, si: nat, w: nat, len: nat)
    requires di + len <= |s| && si + len <= |s| && Units(len, w) && len > 0
    ensures len >= w && Units(len - w, w)
    ensures Downward(s, di, si, w, len) == Downward(Moved(s, di + len - w, si + len - w, w), di, si, w, len - w)
  {
    FirstUnit(len, w);
    hide Units, Moved;
  }

  lemma {:induction false} UpwardKeeps<T>(s: seq<T>, di: nat, si: nat, w: nat, len: nat, a: nat)
    requires di + len <= |s| && si + len <= |s| && Units(len, w) && a < |s| && !(di <= a < di + len)
    ensures Upward(s, di, si, w, len)[a] == s[a]
    decreases len
  {
    if len > 0 {
      FirstUnit(len, w);
      UpFirst(s, di, si, w, len);
      MovedAt(s, di, si, w, a);
      hide Moved, Upward, Units;
      UpwardKeeps(Moved(s, di, si, w), di + w, si + w, w, len - w, a);
    }
  }

  /** A byte below the destination is read as it was. */
  lemma {:induction false} UpwardReads<T>(s: seq<T>, di: nat, si: nat, w: nat, len: nat, p: nat)
    requires di + len <= |s| && si + len <= |s| && Units(len, w) && p < len && si + p < di
    ensures Upward(s, di, si, w, len)[di + p] == s[si + p]
    decreases len
  {
    hide Moved, Upward, Units;
    FirstUnit(len, w);
    UpFirst(s, di, si, w, len);
    MovedAt(s, di, si, w, si + p);
    MovedAt(s, di, si, w, di + p);
    var s1 := Moved(s, di, si, w);
    if p < w {
      UpwardKeeps(s1, di + w, si + w, w, len - w, di + p);
    } else {
      UpwardReads(s1, di + w, si + w, w, len - w, p - w);
    }
  }

  lemma {:induction false} DownwardKeeps<T>(s: seq<T>, di: nat, si: nat, w: nat, len: nat, a: nat)
    requires di + len <= |s| && si + len <= |s| && Units(len, w) && a < |s| && !(di <= a < di + len)
    ensures Downward(s, di, si, w, len)[a] == s[a]
    decreases len
  {
    if len > 0 {
      FirstUnit(len, w);
      DownFirst(s, di, si, w, len);
      MovedAt(s, di + len - w, si + len - w, w, a);
      hide Moved, Downward, Units;
      DownwardKeeps(Moved(s, di + len - w, si + len - w, w), di, si, w, len - w, a);
    }
  }

  /** A byte past the destination is read as it was. */
  lemma {:induction false} DownwardReads<T>(s: seq<T>, di: nat, si: nat, w: nat, len: nat, p: nat)
    requires di + len <= |s| && si + len <= |s| && Units(len, w) && p < len && si + p >= di + len
    ensures Downward(s, di, si, w, len)[di + p] == s[si + p]
    decreases len
  {
    hide Moved, Downward, Units;
    FirstUnit(len, w);
    DownFirst(s, di, si, w, len);
    MovedAt(s, di + len - w, si + len - w, w, si + p);
    MovedAt(s, di + len - w, si + len - w, w, di + p);
    var s1 := Moved(s, di + len - w, si + len - w, w);
    if p >= len - w {
      DownwardKeeps(s1, di, si, w, len - w, di + p);
    } else {
      DownwardReads(s1, di, si, w, len - w, p);
    }
  }

  /** Going up over a destination d bytes above the source, the first unit spoils a byte p that is read later. */
  lemma SpoiltUp(s: seq<byte>, src: nat, d: nat, w: nat, len: nat, p: nat)
    requires src + d + len <= |s| && Units(len, w) && w <= p < len && d <= p < d + w && d > 0
    ensures Upward(s, src + d, src, w, len)[src + d + p] == s[src + p - d]
  {
    hide Moved, Upward, Units;
    FirstUnit(len, w);
    UpFirst(s, src + d, src, w, len);
    MovedAt(s, src + d, src, w, src + p);
    UpwardReads(Moved(s, src + d, src, w), src + d + w, src + w, w, len - w, p - w);
  }

  /** The same for a byte that only the second pass reads. */
  lemma SpoiltLater(s: seq<byte>, src: nat, d: nat, words: nat, count: nat, p: nat)
    requires src + d + count <= |s| && 0 < words <= p < count && Units(words, 4) && Units(count - words, 1) &&
        d <= p < d + 4 && d > 0
    ensures Upward(Upward(s, src + d, src, 4, words), src + d + words, src + words, 1,
        count - words)[src + d + p] == s[src + p - d]
  {
    hide Moved, Upward, Units;
    FirstUnit(words, 4);
    UpFirst(s, src + d, src, 4, words);
    MovedAt(s, src + d, src, 4, src + p);
    UpwardKeeps(Moved(s, src + d, src, 4), src + d + 4, src + 4, 4, words - 4, src + p);
    UpwardReads(Upward(s, src + d, src, 4, words), src + d + words, src + words, 1, count - words, p - words);
  }

  lemma OutcomeParts<T>(s: seq<T>, dst: nat, src: nat, count: nat) returns (words: nat)
    requires dst + count <= |s| && src + count <= |s|
    ensures words <= count && count - words < 4 && Units(words, 4) && Units(count - words, 1)
    ensures words == count <==> count % 4 == 0
    ensures words == 0 <==> count < 4
    ensures words == count && count != 4 ==> count == 0 || count >= 8
    ensures Outcome(s, dst, src, count) == if Signed(src) <= Signed(dst) then
                Downward(Downward(s, dst + words, src + words, 1, count - words), dst, src, 4, words)
              else Upward(Upward(s, dst, src, 4, words), dst + words, src + words, 1, count - words)
  {
    hide Upward, Downward, Signed;
    words := count - count % 4;
  }

  /** Going up over a destination that starts inside the source. */
  lemma OutcomeUp(s: seq<byte>, src: nat, d: nat, count: nat) returns (p: nat)
    requires src + d + count <= |s| && 0 < d < count && count != 4 && Signed(src) > Signed(src + d)
    ensures d <= p < count && Outcome(s, src + d, src, count)[src + d + p] == s[src + p - d]
    ensures p == if count >= 4 && d < 4 then 4 else d
  {
    hide Upward, Moved, Outcome, Signed, Units;
    var words := OutcomeParts(s, src + d, src, count);
    p := if count >= 4 && d < 4 then 4 else d;
    var s1 := Upward(s, src + d, src, 4, words);
    if words == 0 {
      NoUnits(s, src + d, src);
      SpoiltUp(s, src, d, 1, count, p);
    } else if p < words {
      SpoiltUp(s, src, d, 4, words, p);
      UpwardKeeps(s1, src + d + words, src + words, 1, count - words, src + d + p);
    } else {
      SpoiltLater(s, src, d, words, count, p);
    }
  }

  lemma NoUnits<T>(s: seq<T>, di: nat, si: nat)
    requires di <= |s| && si <= |s|
    ensures Upward(s, di, si, 4, 0) == s && Downward(s, di, si, 4, 0) == s && Downward(s, di, si, 1, 0) == s
  {
  }

  /** Going down over a destination d bytes below the source, the first unit spoils a byte p that is read later. */
  lemma SpoiltDown(s: seq<byte>, dst: nat, d: nat, w: nat, len: nat, p: nat)
    requires dst + d + len <= |s| && Units(len, w) && w < len && p < len - w && len - w <= p + d < len
    ensures Downward(s, dst, dst + d, w, len)[dst + p] == s[dst + d + p + d]
  {
    hide Moved, Downward, Units;
    FirstUnit(len, w);
    DownFirst(s, dst, dst + d, w, len);
    MovedAt(s, dst + len - w, dst + d + len - w, w, dst + d + p);
    DownwardReads(Moved(s, dst + len - w, dst + d + len - w, w), dst, dst + d, w, len - w, p);
  }

  /** The same for a byte that only the second pass reads. */
  lemma SpoiltBelow(s: seq<byte>, dst: nat, d: nat, words: nat, count: nat, p: nat)
    requires dst + d + count <= |s| && p < words < count && Units(words, 4) && Units(count - words, 1) &&
        p + d == count - 1
    ensures Downward(Downward(s, dst + words, dst + d + words, 1, count - words), dst, dst + d, 4,
        words)[dst + p] == s[dst + d + p + d]
  {
    hide Moved, Downward, Units;
    var r := count - words;
    DownFirst(s, dst + words, dst + d + words, 1, r);
    MovedAt(s, dst + words + r - 1, dst + d + words + r - 1, 1, dst + d + p);
    var s1 := Moved(s, dst + words + r - 1, dst + d + words + r - 1, 1);
    DownwardKeeps(s1, dst + words, dst + d + words, 1, r - 1, dst + d + p);
    DownwardReads(Downward(s, dst + words, dst + d + words, 1, r), dst, dst + d, 4, words, p);
  }

  /** Going down over a destination that ends inside the source. */
  lemma OutcomeDown(s: seq<byte>, dst: nat, d: nat, count: nat) returns (p: nat)
    requires dst + d + count <= |s| && 0 < d < count && count != 4 && Signed(dst + d) <= Signed(dst)
    ensures p + d < count && Outcome(s, dst, dst + d, count)[dst + p] == s[dst + d + p + d]
    ensures p == count - 1 - if count % 4 == 0 && d < 4 then 4 else d
  {
    hide Downward, Moved, Outcome, Signed, Units;
    var words := OutcomeParts(s, dst, dst + d, count);
    p := count - 1 - if count % 4 == 0 && d < 4 then 4 else d;
    if words == count {
      NoDownBytes(s, dst + words, dst + d + words);
      SpoiltDown(s, dst, d, 4, words, p);
    } else if p >= words {
      SpoiltDown(s, dst + words, d, 1, count - words, p - words);
      DownwardKeeps(Downward(s, dst + words, dst + d + words, 1, count - words), dst, dst + d, 4, words, dst + p);
    } else {
      SpoiltBelow(s, dst, d, words, count, p);
    }
  }

  lemma NoDownBytes<T>(s: seq<T>, di: nat, si: nat)
    requires di <= |s| && si <= |s|
    ensures Downward(s, di, si, 1, 0) == s
  {
  }

  /** Memory of n bytes, all 0 but for a 1 at x. */
  function Lone(n: nat, x: nat): (s: seq<byte>)
    ensures |s| == n
  {
    seq(n, a requires 0 <= a < n => if a == x then 1 else 0)
  }

  /** blkcopy is right whatever memory holds exactly when the blocks are comparable, or are a single word. */
  lemma OutcomeExact(n: nat, dst: nat, src: nat, count: nat)
    requires dst + count <= n <= WORD && src + count <= n
    ensures (forall s: seq<byte> :: |s| == n ==> Copied(s, Outcome(s, dst, src, count), dst, src, count))
            <==> Comparable(dst, src, count) || count == 4
  {
    forall s: seq<byte> | |s| == n && (Comparable(dst, src, count) || count == 4)
      ensures Copied(s, Outcome(s, dst, src, count), dst, src, count)
    {
      if Comparable(dst, src, count) {
        OutcomeCopies(s, dst, src, count);
      } else {
        OneWord(s, dst, src);
      }
    }
    if !Comparable(dst, src, count) && count != 4 {
      Spoilt(n, dst, src, count);
    }
  }

  /** Eight bytes moved up by one across 0x80000000: the fifth one arrives as the fourth. */
  lemma AcrossHalf(s: seq<byte>)
    requires 0x8000_0008 <= |s|
    ensures !Comparable(0x8000_0000, 0x7FFF_FFFF, 8)
    ensures Outcome(s, 0x8000_0000, 0x7FFF_FFFF, 8)[0x8000_0004] == s[0x8000_0002]
    ensures Wanted(s, 0x8000_0000, 0x7FFF_FFFF, 8, 0x8000_0004) == s[0x8000_0003]
  {
    hide Outcome;
    var p := OutcomeUp(s, 0x7FFF_FFFF, 1, 8);
  }

  lemma OneWord(s: seq<byte>, dst: nat, src: nat)
    requires dst + 4 <= |s| && src + 4 <= |s|
    ensures Copied(s, Outcome(s, dst, src, 4), dst, src, 4)
  {
    MovedCopied(s, dst, src, 4);
    hide Moved;
    assert Outcome(s, dst, src, 4) == Moved(s, dst, src, 4);
  }

  lemma Spoilt(n: nat, dst: nat, src: nat, count: nat)
    requires dst + count <= n <= WORD && src + count <= n && !Comparable(dst, src, count) && count != 4
    ensures exists s: seq<byte> :: |s| == n && !Copied(s, Outcome(s, dst, src, count), dst, src, count)
  {
    hide Outcome, Copied;
    if src < dst {
      var d := dst - src;
      var s := Lone(n, src + (if count >= 4 && d < 4 then 4 else d) - d);
      var p := OutcomeUp(s, src, d, count);
      NotCopied(s, dst, src, count, dst + p);
    } else {
      var d := src - dst;
      var s := Lone(n, src + (count - 1 - if count % 4 == 0 && d < 4 then 4 else d) + d);
      var p := OutcomeDown(s, dst, d, count);
      NotCopied(s, dst, src, count, dst + p);
    }
  }

  lemma NotCopied(s: seq<byte>, dst: nat, src: nat, count: nat, a: nat)
    requires dst + count <= |s| && src + count <= |s| && a < |s|
    requires Outcome(s, dst, src, count)[a] != Wanted(s, dst, src, count, a)
    ensures !Copied(s, Outcome(s, dst, src, count), dst, src, count)
  {
  }

  // ---- The code ------------------------------------------------------------

  /** Registers add modulo 2^32. */
  function Add(a: nat, b: nat): nat { (a + b) % WORD }

  /** The bytes in n units. */
  function Bytes(w: nat, n: nat): nat { if w == 4 then 4 * n else n }

  /** A load of w bytes and a store of w bytes. */
  method MoveUnit(mem: array<byte>, edi: nat, esi: nat, w: nat)
    requires (w == 1 || w == 4) && edi + w <= mem.Length && esi + w <= mem.Length
    modifies mem
    ensures mem[..] == Moved(old(mem[..]), edi, esi, w)
  {
    ghost var s := mem[..];
    if w == 1 {
      mem[edi] := mem[esi];
    } else {
      var b0, b1, b2, b3 := mem[esi], mem[esi + 1], mem[esi + 2], mem[esi + 3];
      mem[edi], mem[edi + 1], mem[edi + 2], mem[edi + 3] := b0, b1, b2, b3;
    }
    forall a | 0 <= a < mem.Length
      ensures mem[a] == Moved(s, edi, esi, w)[a]
    {
      MovedAt(s, edi, esi, w, a);
    }
    hide Moved;
    assert mem[..] == Moved(s, edi, esi, w);
  }

  lemma UpStep<T>(s: seq<T>, di: nat, si: nat, w: nat, n: nat)
    requires (w == 1 || w == 4) && di + Bytes(w, n) <= |s| && si + Bytes(w, n) <= |s|
    ensures n == 0 ==> Upward(s, di, si, w, Bytes(w, n)) == s
    ensures n > 0 ==> Upward(s, di, si, w, Bytes(w, n)) == Upward(Moved(s, di, si, w), di + w, si + w, w, Bytes(w,
        n - 1))
  {
    hide Moved;
    var len := Bytes(w, n);
    assert n > 0 ==> len - w == Bytes(w, n - 1);
    assert Units(len, w);
    assert n == 0 <==> len == 0;
    hide Bytes;
    if len > 0 {
      assert Upward(s, di, si, w, len) == Upward(Moved(s, di, si, w), di + w, si + w, w, len - w);
    }
  }

  lemma DownStep<T>(s: seq<T>, di: nat, si: nat, w: nat, n: nat)
    requires (w == 1 || w == 4) && di + Bytes(w, n) <= |s| && si + Bytes(w, n) <= |s|
    ensures n == 0 ==> Downward(s, di, si, w, Bytes(w, n)) == s
    ensures n > 0 ==> Downward(s, di, si, w, Bytes(w, n))
                      == Downward(Moved(s, di + Bytes(w, n - 1), si + Bytes(w, n - 1), w), di, si, w, Bytes(w, n - 1))
  {
    hide Moved;
    var len := Bytes(w, n);
    assert n > 0 ==> len - w == Bytes(w, n - 1);
    assert Units(len, w);
    assert n == 0 <==> len == 0;
    hide Bytes;
    if len > 0 {
      assert Downward(s, di, si, w, len) == Downward(Moved(s, di + (len - w), si + (len - w), w), di, si, w, len - w);
    }
  }

  /** Going down a unit, modulo 2^32. */
  lemma StepBack(di: nat, w: nat, n: nat)
    requires (w == 1 || w == 4) && n > 0 && di + Bytes(w, n) <= WORD
    ensures Add(di + Bytes(w, n), WORD - w) == di + Bytes(w, n - 1)
    ensures Add(di + Bytes(w, n - 1), WORD - w) == Add(Add(di + Bytes(w, n), WORD - w), WORD - w)
  {
    assert Bytes(w, n) == Bytes(w, n - 1) + w;
    Back(di + Bytes(w, n), w);
    hide Bytes, Add;
  }

  lemma Back(a: nat, w: nat)
    requires 0 < w <= a <= WORD
    ensures Add(a, WORD - w) == a - w
  {
  }

  /** rep movsl or rep movsb going up. */
  method RepUp(mem: array<byte>, edi0: nat, esi0: nat, w: nat, n: nat) returns (edi: nat, esi: nat)
    requires (w == 1 || w == 4) && edi0 + Bytes(w, n) <= mem.Length <= WORD && esi0 + Bytes(w, n) <= mem.Length
    modifies mem
    ensures mem[..] == Upward(old(mem[..]), edi0, esi0, w, Bytes(w, n))
    ensures edi == edi0 + Bytes(w, n) && esi == esi0 + Bytes(w, n)
  {
    hide Upward, Moved;
    edi, esi := edi0, esi0;
    var ecx := n;
    while ecx > 0
      invariant 0 <= ecx <= n && edi + Bytes(w, ecx) == edi0 + Bytes(w, n) && esi + Bytes(w, ecx) == esi0 + Bytes(w, n)
      invariant Upward(mem[..], edi, esi, w, Bytes(w, ecx)) == Upward(old(mem[..]), edi0, esi0, w, Bytes(w, n))
    {
      UpStep(mem[..], edi, esi, w, ecx);
      MoveUnit(mem, edi, esi, w);
      edi, esi := edi + w, esi + w;
      ecx := ecx - 1;
    }
    UpStep(mem[..], edi, esi, w, 0);
  }

  /** rep movsl or rep movsb going down over the stretches at di and si; the registers start at their last units and may
      end below 0. */
  method RepDown(mem: array<byte>, edi0: nat, esi0: nat, w: nat, n: nat, ghost di: nat, ghost si: nat)
    returns (edi: nat, esi: nat)
    requires (w == 1 || w == 4) && mem.Length <= WORD
    requires di + Bytes(w, n) <= mem.Length && si + Bytes(w, n) <= mem.Length
    requires edi0 == Add(di + Bytes(w, n), WORD - w) && esi0 == Add(si + Bytes(w, n), WORD - w)
    modifies mem
    ensures mem[..] == Downward(old(mem[..]), di, si, w, Bytes(w, n))
    ensures edi == Add(di, WORD - w) && esi == Add(si, WORD - w)
  {
    hide Downward, Moved, Add;
    edi, esi := edi0, esi0;
    var ecx := n;
    while ecx > 0
      invariant 0 <= ecx <= n
      invariant edi == Add(di + Bytes(w, ecx), WORD - w) && esi == Add(si + Bytes(w, ecx), WORD - w)
      invariant Downward(mem[..], di, si, w, Bytes(w, ecx)) == Downward(old(mem[..]), di, si, w, Bytes(w, n))
    {
      StepBack(di, w, ecx);
      StepBack(si, w, ecx);
      DownStep(mem[..], di, si, w, ecx);
      MoveUnit(mem, edi, esi, w);
      edi, esi := Add(edi, WORD - w), Add(esi, WORD - w);
      ecx := ecx - 1;
    }
    DownStep(mem[..], di, si, w, 0);
  }

  /** Lines 27-37: words, then the odd bytes, front to back. */
  method CopyUp(mem: array<byte>, dst: nat, src: nat, count: nat)
    requires mem.Length <= WORD && dst + count <= mem.Length && src + count <= mem.Length
    modifies mem
    ensures mem[..] == var words := count - count % 4;
                       Upward(Upward(old(mem[..]), dst, src, 4, words), dst + words, src + words, 1, count % 4)
  {
    hide Upward;
    var edi, esi := dst, src;
    var ecx := count / 4;
    edi, esi := RepUp(mem, edi, esi, 4, ecx);
    ecx := count % 4;
    edi, esi := RepUp(mem, edi, esi, 1, ecx);
  }

  /** Lines 39-48: the registers point at the last byte, then at the last word. */
  lemma Ends(a: nat, count: nat)
    requires a + count <= WORD && count < HALF
    ensures Add(a, Add(count, WORD - 1)) == Add(a + (count - count % 4) + Bytes(1, count % 4), WORD - 1)
    ensures Add(Add(a + (count - count % 4), WORD - 1), WORD - 3) == Add(a + Bytes(4, count / 4), WORD - 4)
    ensures Add(Add(count, WORD - 1), 1) == count
  {
    var words := count - count % 4;
    assert Bytes(4, count / 4) == words && Bytes(1, count % 4) == count % 4;
    hide Bytes;
  }

  /** Lines 38-55: the odd bytes, then words, back to front. */
  method CopyDown(mem: array<byte>, dst: nat, src: nat, count: nat)
    requires mem.Length <= WORD && dst + count <= mem.Length && src + count <= mem.Length && count < HALF
    modifies mem
    ensures mem[..] == var words := count - count % 4;
                       Downward(Downward(old(mem[..]), dst + words, src + words, 1, count % 4), dst, src, 4, words)
  {
    hide Downward, Add;
    Ends(dst, count);
    Ends(src, count);
    var edi, esi, ecx := dst, src, count;
    ghost var words := count - count % 4;
    ecx := Add(ecx, WORD - 1);
    esi := Add(esi, ecx);
    edi := Add(edi, ecx);
    ecx := Add(ecx, 1);
    ecx := ecx % 4;
    edi, esi := RepDown(mem, edi, esi, 1, ecx, dst + words, src + words);
    esi := Add(esi, WORD - 3);
    edi := Add(edi, WORD - 3);
    ecx := count / 4;
    edi, esi := RepDown(mem, edi, esi, 4, ecx, dst, src);
  }

  /** blkcopy, lines 20-55: edi, esi and ecx are the processor's registers. */
  method BlkCopy(mem: array<byte>, dst: nat, src: nat, count: nat)
    requires mem.Length <= WORD && dst + count <= mem.Length && src + count <= mem.Length && count < HALF
    modifies mem
    ensures mem[..] == Outcome(old(mem[..]), dst, src, count)
    ensures Comparable(dst, src, count) ==> Copied(old(mem[..]), mem[..], dst, src, count)
  {
    if Comparable(dst, src, count) {
      OutcomeCopies(mem[..], dst, src, count);
    }
    hide Copied, Upward, Downward, Comparable;
    if Signed(src) <= Signed(dst) {
      CopyDown(mem, dst, src, count);
    } else {
      CopyUp(mem, dst, src, count);
    }
  }
}
