// The 32K ring window (boot/zBoot/inflate.c:365-371, 395-418, 469-474) and its
// flushing (boot/zBoot/misc.c:172-179, 261-271), against an unbounded output.
module Window {
  import opened Bits
  import opened Crc
  import Spec = InflateSpec

  const WSIZE: nat := 0x8000

  /** Past position `w` the window still holds what was flushed last. */
  ghost predicate History(sl: seq<byte>, output: seq<byte>, w: nat)
  {
    && |sl| == WSIZE && w <= WSIZE
    && (|output| == 0 || |output| >= WSIZE)
    && forall p :: w <= p < WSIZE && |output| >= WSIZE ==> sl[p] == output[|output| - WSIZE + p]
  }

  /** (w - dist) & (WSIZE - 1) */
  function Back(w: nat, dist: nat): nat
    requires dist <= WSIZE
  {
    if w >= dist then w - dist else w + WSIZE - dist
  }

  lemma MaskedIndex(w: nat, dist: nat)
    requires w < WSIZE && 1 <= dist <= WSIZE
    ensures ((w - dist) % 0x1_0000_0000) % WSIZE == Back(w, dist)
  {
  }

  /** The byte at distance `dist` is where the masked index points. */
  lemma ByteBack(sl: seq<byte>, output: seq<byte>, w: nat, dist: nat)
    requires History(sl, output, w) && w < WSIZE && 1 <= dist <= WSIZE && dist <= |output| + w
    ensures Back(w, dist) < WSIZE
    ensures sl[Back(w, dist)] == (output + sl[..w])[|output| + w - dist]
  {
  }

  /** Source and destination keep their distance across the wrap. */
  lemma NextBack(w: nat, dist: nat, e: nat)
    requires w < WSIZE && 1 <= dist <= WSIZE && 1 <= e && w + e <= WSIZE && Back(w, dist) + e <= WSIZE
    ensures (Back(w, dist) + e) % WSIZE == Back(if w + e == WSIZE then 0 else w + e, dist)
  {
  }

  /** Copying in two goes. */
  lemma {:induction false} CopySplit(out: seq<byte>, m: nat, n: nat, dist: nat)
    requires 1 <= dist <= |out|
    ensures Spec.CopyMatch(out, m + n, dist) == Spec.CopyMatch(Spec.CopyMatch(out, m, dist), n, dist)
    decreases m
  {
    if m > 0 {
      CopySplit(out + [out[|out| - dist]], m - 1, n, dist);
    }
  }

  /** As long as the source lies in what is there already, it is one block. */
  lemma {:induction false} CopyBlock(out: seq<byte>, n: nat, dist: nat)
    requires 1 <= dist <= |out| && n <= dist
    ensures Spec.CopyMatch(out, n, dist) == out + out[|out| - dist..|out| - dist + n]
    decreases n
  {
    if n > 0 {
      CopyBlock(out, n - 1, dist);
      CopySplit(out, n - 1, 1, dist);
      var r := Spec.CopyMatch(out, n - 1, dist);
      assert Spec.CopyMatch(r, 1, dist) == r + [r[|r| - dist]] by {
        assert Spec.CopyMatch(r + [r[|r| - dist]], 0, dist) == r + [r[|r| - dist]];
      }
    } else {
      assert out + out[|out| - dist..|out| - dist] == out;
    }
  }

  lemma CopyOne(out: seq<byte>, dist: nat)
    requires 1 <= dist <= |out|
    ensures Spec.CopyMatch(out, 1, dist) == out + [out[|out| - dist]]
  {
    assert Spec.CopyMatch(out + [out[|out| - dist]], 0, dist) == out + [out[|out| - dist]];
  }

  /** Which byte of the source a forward byte loop copies to place `i`: it starts over when it meets its own output. */
  function Source(dst: nat, src: nat, i: nat): (r: nat)
    ensures r <= i
  {
    if src < dst then i % (dst - src) else i
  }

  lemma SourceStep(dst: nat, src: nat, i: nat)
    ensures src + i < dst ==> Source(dst, src, i) == i
    ensures src < dst <= src + i ==> Source(dst, src, i) == Source(dst, src, i - (dst - src))
  {
    if src < dst {
      var d := dst - src;
      if i < d {
        DivModUnique(i, d, 0, i);
      } else {
        var j := i - d;
        assert j == d * (j / d) + j % d;
        assert i == d * (j / d + 1) + j % d;
        DivModUnique(i, d, j / d + 1, j % d);
      }
    }
  }

  class SlidingWindow {
    const slide: array<byte>
    var wp: nat
    /** The bytes at output_data[0..output_ptr). */
    var output: seq<byte>
    const register: CrcRegister

    constructor ()
      ensures Valid() && Out() == [] && fresh(slide) && fresh(register) && fresh(register.tab)
    {
      slide := new byte[WSIZE];
      register := new CrcRegister();
      wp := 0;
      output := [];
    }

    /** The CRC register has seen exactly the flushed bytes. */
    ghost predicate Consistent()
      reads this, slide, register, register.tab
    {
      && slide.Length == WSIZE && register.Valid()
      && History(slide[..], output, wp)
      && register.crc == Feed(Ones(), output)
    }

    ghost predicate Valid()
      reads this, slide, register, register.tab
    {
      Consistent() && slide.Length == WSIZE && wp < WSIZE
    }

    /** All output so far. */
    ghost function Out(): seq<byte>
      reads this, slide
      requires wp <= slide.Length
    {
      output + slide[..wp]
    }

    /** flush_window: misc.c:261-271. */
    method FlushWindow()
      requires wp <= slide.Length && register.Valid() && register.crc == Feed(Ones(), output)
      modifies this, register
      ensures output == old(Out()) && wp == 0
      ensures register.Valid() && register.crc == Feed(Ones(), output)
    {
      hide Steps, Feed;
      if wp == 0 {
        return;
      }
      FeedConcat(Ones(), output, slide[..wp]);
      var r := register.Update(slide, wp);
      output := output + slide[..wp];
      wp := 0;
    }

    /** Flush when the window is full: lines 366-370. */
    method FlushIfFull()
      requires Consistent()
      modifies this, register
      ensures Valid() && Out() == old(Out())
      ensures wp == if old(wp) == WSIZE then 0 else old(wp)
    {
      hide Steps, Feed;
      if wp == WSIZE {
        ghost var sl, out := slide[..], output;
        FlushWindow();
        assert output == out + sl[..WSIZE] == out + sl;
      }
    }

    /** slide[w++] = c, and the flush that follows it. */
    method PutByte(c: byte)
      requires Valid()
      modifies this, slide, register
      ensures Valid() && Out() == old(Out()) + [c]
    {
      hide Steps, Feed;
      slide[wp] := c;
      wp := wp + 1;
      assert slide[..wp] == old(slide[..wp]) + [c];
      FlushIfFull();
    }

    /** memcpy: misc.c:172-179, one byte after the other; where the destination starts inside the source, its bytes
        repeat. */
    method Memcpy(dst: nat, src: nat, n: nat)
      requires dst + n <= slide.Length && src + n <= slide.Length
      modifies slide
      ensures forall p :: 0 <= p < slide.Length ==>
        slide[p] == if dst <= p < dst + n then old(slide[src + Source(dst, src, p - dst)]) else old(slide[p])
    {
      var i := 0;
      while i < n
        invariant i <= n
        invariant forall p :: 0 <= p < slide.Length ==>
          slide[p] == if dst <= p < dst + i then old(slide[src + Source(dst, src, p - dst)]) else old(slide[p])
      {
        SourceStep(dst, src, i);
        slide[dst + i] := slide[src + i];
        i := i + 1;
      }
    }

    /** One byte of the slow copy: line 411. */
    method CopyByte(d: nat, ghost dist: nat)
      requires Consistent() && wp < WSIZE && 1 <= dist <= WSIZE && d == Back(wp, dist)
      modifies this, slide
      ensures Consistent() && wp == old(wp) + 1 && output == old(output)
      ensures dist <= |old(Out())| ==> Out() == Spec.CopyMatch(old(Out()), 1, dist)
    {
      hide Steps, Feed, Spec.CopyMatch;
      ghost var out := Out();
      if dist <= |out| {
        ByteBack(slide[..], output, wp, dist);
        CopyOne(out, dist);
      }
      slide[wp] := slide[d];
      wp := wp + 1;
      assert slide[..wp] == old(slide[..wp]) + [old(slide[d])];
    }

    /** The block copy reproduces the bytes `dist` back. */
    lemma BlockBack(sl: seq<byte>, sl': seq<byte>, w: nat, e: nat, dist: nat)
      requires History(sl, output, w) && |sl'| == WSIZE && w + e <= WSIZE && 1 <= dist <= WSIZE
      requires e <= dist <= |output| + w && w < WSIZE && Back(w, dist) + e <= WSIZE
      requires forall p :: 0 <= p < w ==> sl'[p] == sl[p]
      requires forall p :: w <= p < w + e ==> sl'[p] == sl[Back(w, dist) + p - w]
      ensures output + sl'[..w + e] == Spec.CopyMatch(output + sl[..w], e, dist)
    {
      hide Spec.CopyMatch;
      var out := output + sl[..w];
      CopyBlock(out, e, dist);
      var block := out[|out| - dist..|out| - dist + e];
      forall i | 0 <= i < e
        ensures sl'[w + i] == block[i]
      {
        assert block[i] == out[|out| - dist + i];
        assert sl'[w + i] == sl[Back(w, dist) + i];
      }
      assert output + sl'[..w + e] == out + block;
    }

    /** One chunk that wraps neither source nor destination: lines 402-412. */
    method CopyChunk(d0: nat, e0: nat, ghost dist: nat)
      requires Valid() && 1 <= dist <= WSIZE && d0 == Back(wp, dist)
      requires 1 <= e0 && wp + e0 <= WSIZE && d0 + e0 <= WSIZE
      modifies this, slide
      ensures Consistent() && wp == old(wp) + e0 && output == old(output)
      ensures dist <= |old(Out())| ==> Out() == Spec.CopyMatch(old(Out()), e0, dist)
    {
      hide *;
      FarEnough(wp, d0, e0);
      ChunkParts(this);
      if (wp - d0) % 0x1_0000_0000 >= e0 {
        FastCopy(d0, e0, dist);
      } else {
        SlowCopy(d0, e0, dist);
      }
    }

    /** Lines 404-406. */
    method FastCopy(d0: nat, e0: nat, ghost dist: nat)
      requires Valid() && 1 <= dist <= WSIZE && d0 == Back(wp, dist) && (wp < d0 || wp - d0 >= e0)
      requires 1 <= e0 && wp + e0 <= WSIZE && d0 + e0 <= WSIZE
      modifies this, slide
      ensures Consistent() && wp == old(wp) + e0 && output == old(output)
      ensures dist <= |old(Out())| ==> Out() == Spec.CopyMatch(old(Out()), e0, dist)
    {
      hide Steps, Feed, Spec.CopyMatch, Source;
      ghost var out := Out();
      Memcpy(wp, d0, e0);
      Undisturbed(wp, d0, e0);
      if dist <= |out| {
        BlockBack(old(slide[..]), slide[..], wp, e0, dist);
      }
      wp := wp + e0;
    }

    method SlowCopy(d0: nat, e0: nat, ghost dist: nat)
      requires Valid() && 1 <= dist <= WSIZE && d0 == Back(wp, dist)
      requires 1 <= e0 && wp + e0 <= WSIZE && d0 + e0 <= WSIZE
      modifies this, slide
      ensures Consistent() && wp == old(wp) + e0 && output == old(output)
      ensures dist <= |old(Out())| ==> Out() == Spec.CopyMatch(old(Out()), e0, dist)
    {
      hide Steps, Feed, Spec.CopyMatch;
      ghost var out := Out();
      var d, e := d0, e0;
      if dist <= |out| {
        NoCopy(out, dist);
      }
      while e > 0
        invariant Consistent() && e <= e0 && wp == old(wp) + e0 - e && d == d0 + e0 - e && output == old(output)
        invariant dist <= |out| ==> Out() == Spec.CopyMatch(out, e0 - e, dist)
      {
        if dist <= |out| {
          CopySplit(out, e0 - e, 1, dist);
        }
        CopyByte(d, dist);
        d := d + 1;
        e := e - 1;
      }
    }

    /** Copy a match: lines 395-418. */
    method CopyMatch(len: nat, dist: nat)
      requires Valid() && len >= 1 && 1 <= dist <= WSIZE
      modifies this, slide, register
      ensures Valid()
      ensures dist <= |old(Out())| ==> Out() == Spec.CopyMatch(old(Out()), len, dist)
    {
      hide Steps, Feed, Spec.CopyMatch;
      ghost var out := Out();
      var n: nat := len;
      var d := (wp - dist) % 0x1_0000_0000;
      MaskedIndex(wp, dist);
      if dist <= |out| {
        NoCopy(out, dist);
      }
      while n != 0
        invariant Valid() && n <= len
        invariant n != 0 ==> d % WSIZE == Back(wp, dist)
        invariant dist <= |out| ==> Out() == Spec.CopyMatch(out, len - n, dist)
      {
        ghost var k := len - n;
        var e;
        e, d := NextChunk(n, d % WSIZE, dist);
        n := n - e;
        if dist <= |out| {
          CopySplit(out, k, e, dist);
        }
      }
    }

    /** As much of the match as neither wraps nor overshoots, and the flush after it: lines 400-417. */
    method NextChunk(n: nat, d0: nat, ghost dist: nat) returns (e: nat, d: nat)
      requires Valid() && n >= 1 && 1 <= dist <= WSIZE && d0 == Back(wp, dist)
      modifies this, slide, register
      ensures Valid() && 1 <= e <= n && d == d0 + e && d % WSIZE == Back(wp, dist)
      ensures old(wp) + e <= WSIZE && d0 + e <= WSIZE && |Out()| == |old(Out())| + e
      ensures dist <= |old(Out())| ==> Out() == Spec.CopyMatch(old(Out()), e, dist)
    {
      hide Steps, Feed, Spec.CopyMatch;
      BackInRange(wp, dist);
      ghost var w := wp;
      e := WSIZE - (if d0 > wp then d0 else wp);
      if e > n {
        e := n;
      }
      CopyChunk(d0, e, dist);
      d := d0 + e;
      FlushIfFull();
      NextBack(w, dist, e);
    }
  }

  lemma ChunkParts(w: SlidingWindow)
    requires w.Valid()
    ensures w.wp < WSIZE
  {
  }

  /** Line 402: the unsigned difference tells a source ahead of the destination, or far enough behind it. */
  lemma FarEnough(w: nat, d: nat, e: nat)
    requires w <= WSIZE && d <= WSIZE && e <= WSIZE
    ensures (w - d) % 0x1_0000_0000 >= e <==> w < d || w - d >= e
  {
  }

  /** A copy no longer than the distance meets none of its own output. */
  lemma Undisturbed(dst: nat, src: nat, n: nat)
    requires dst <= src || src + n <= dst
    ensures forall i: nat :: i < n ==> Source(dst, src, i) == i
  {
    forall i: nat | i < n
      ensures Source(dst, src, i) == i
    {
      SourceStep(dst, src, i);
    }
  }

  lemma BackInRange(w: nat, dist: nat)
    requires w < WSIZE && 1 <= dist <= WSIZE
    ensures Back(w, dist) < WSIZE
  {
  }

  lemma NoCopy(out: seq<byte>, dist: nat)
    requires 1 <= dist <= |out|
    ensures Spec.CopyMatch(out, 0, dist) == out
  {
  }
}
