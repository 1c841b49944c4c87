// The free list of c/mem.c as a value: which blocks it lists, which bytes they
// cover, and how the headers in memory chain them together.
module FreeList {

  /** One past the last address of a 32-bit word, and the size of a block header. */
  const WORD := 0x1_0000_0000
  const HEADER := 16

  /** struct MemBlock, lines 14-20; a null pointer is 0. */
  datatype Header = Header(size: nat, prev: nat, next: nat, sanity: nat)

  /** The header at each multiple of 16. */
  type Memory = map<nat, Header>

  /** A block of `size` bytes, header included, that starts at `addr`. */
  datatype Block = Block(addr: nat, size: nat)

  predicate Within(b: Block, x: int)
  {
    b.addr <= x < b.addr + b.size
  }

  ghost predicate Covers(s: seq<Block>, x: int)
  {
    exists i :: 0 <= i < |s| && Within(s[i], x)
  }

  /** A block the allocator can hand out or take back; the pointer past its header is not null. */
  predicate Proper(b: Block)
  {
    && b.addr > 0 && b.addr % 16 == 0
    && b.size > 0 && b.size % 16 == 0
    && b.addr + b.size <= WORD - HEADER
  }

  predicate Before(b: Block, c: Block)
  {
    b.addr + b.size <= c.addr
  }

  /** Proper blocks in address order; neighbours may touch. */
  ghost predicate Ordered(s: seq<Block>)
  {
    && (forall i :: 0 <= i < |s| ==> Proper(s[i]))
    && (forall i, j :: 0 <= i < j < |s| ==> Before(s[i], s[j]))
  }

  /** Neighbours i and i + 1 leave a gap. */
  predicate Gap(s: seq<Block>, i: int)
    requires 0 <= i < |s| - 1
  {
    s[i].addr + s[i].size != s[i + 1].addr
  }

  /** Address-ordered, made of multiples of 16, and no two blocks touch. */
  ghost predicate Coalesced(s: seq<Block>)
  {
    Ordered(s) && forall i :: 0 <= i < |s| - 1 ==> Gap(s, i)
  }

  // ---- The free bytes determine the list -----------------------------------

  lemma TailOf(s: seq<Block>)
    requires Coalesced(s) && s != []
    ensures Coalesced(s[1..])
    ensures forall x :: Covers(s[1..], x) <==> Covers(s, x) && !Within(s[0], x)
  {
    var t := s[1..];
    forall i | 0 <= i < |t| - 1 ensures Gap(t, i) {
      assert Gap(s, i + 1);
    }
    forall x
      ensures Covers(t, x) <==> Covers(s, x) && !Within(s[0], x)
    {
      if Covers(t, x) {
        var i :| 0 <= i < |t| && Within(t[i], x);
        assert Within(s[i + 1], x) && Before(s[0], s[i + 1]);
      }
      if Covers(s, x) && !Within(s[0], x) {
        var i :| 0 <= i < |s| && Within(s[i], x);
        assert Within(t[i - 1], x);
      }
    }
  }

  /** A byte of the second list bounds where the first list can start. */
  lemma StartsBy(f: seq<Block>, x: int)
    requires Ordered(f) && Covers(f, x)
    ensures f != [] && f[0].addr <= x
  {
    var i :| 0 <= i < |f| && Within(f[i], x);
    assert i > 0 ==> Before(f[0], f[i]);
  }

  /** The first block of f reaches as far as the first block of g. */
  lemma ReachesAsFar(f: seq<Block>, g: seq<Block>)
    requires Coalesced(f) && Coalesced(g) && f != [] && g != [] && f[0].addr == g[0].addr
    requires forall x :: Covers(g, x) ==> Covers(f, x)
    ensures g[0].size <= f[0].size
  {
    var x := f[0].addr + f[0].size;
    forall i | 0 <= i < |f|
      ensures !Within(f[i], x)
    {
      assert i > 0 ==> Gap(f, 0) && Before(f[0], f[1]);
      assert i > 1 ==> Before(f[1], f[i]);
    }
    assert !Covers(g, x);
    assert !Within(g[0], x);
  }

  /** Two coalesced lists with the same bytes are the same list. */
  lemma {:induction false} CoalescedUnique(f: seq<Block>, g: seq<Block>)
    requires Coalesced(f) && Coalesced(g)
    requires forall x :: Covers(f, x) <==> Covers(g, x)
    ensures f == g
    decreases |f|
  {
    if f != [] {
      assert Within(f[0], f[0].addr);
      assert Covers(f, f[0].addr);
      StartsBy(g, f[0].addr);
    }
    if g != [] {
      assert Within(g[0], g[0].addr);
      assert Covers(g, g[0].addr);
      StartsBy(f, g[0].addr);
      ReachesAsFar(f, g);
      ReachesAsFar(g, f);
      TailOf(f);
      TailOf(g);
      CoalescedUnique(f[1..], g[1..]);
      assert f == [f[0]] + f[1..] && g == [g[0]] + g[1..];
    }
  }

  /** f' is f with the bytes of b taken out; all of them were there. */
  ghost predicate Taken(f: seq<Block>, b: Block, f': seq<Block>)
  {
    && Coalesced(f')
    && (forall x :: Within(b, x) ==> Covers(f, x))
    && (forall x :: Covers(f', x) <==> Covers(f, x) && !Within(b, x))
  }

  /** f' is f with the bytes of b put in. */
  ghost predicate Released(f: seq<Block>, b: Block, f': seq<Block>)
  {
    && Coalesced(f')
    && (forall x :: Covers(f', x) <==> Covers(f, x) || Within(b, x))
  }

  /** Freeing what was just allocated restores the list. */
  lemma TakeRelease(f: seq<Block>, b: Block, f': seq<Block>, f'': seq<Block>)
    requires Coalesced(f) && Taken(f, b, f') && Released(f', b, f'')
    ensures f'' == f
  {
    CoalescedUnique(f'', f);
  }

  /** A run of releases: the list before, between and after. */
  ghost predicate ReleaseRun(fs: seq<seq<Block>>, bs: seq<Block>)
  {
    && |fs| == |bs| + 1
    && forall k :: 0 <= k < |bs| ==> Released(fs[k], bs[k], fs[k + 1])
  }

  lemma {:induction false} RunCovers(fs: seq<seq<Block>>, bs: seq<Block>, k: nat, x: int)
    requires ReleaseRun(fs, bs) && k <= |bs|
    ensures Covers(fs[k], x) <==> Covers(fs[0], x) || Covers(bs[..k], x)
  {
    if k > 0 {
      RunCovers(fs, bs, k - 1, x);
      assert Released(fs[k - 1], bs[k - 1], fs[k]);
      assert bs[..k] == bs[..k - 1] + [bs[k - 1]];
      CoversPlus(bs[..k - 1], [bs[k - 1]], x);
      assert Covers([bs[k - 1]], x) <==> Within([bs[k - 1]][0], x);
    }
  }

  lemma CoversPlus(s: seq<Block>, t: seq<Block>, x: int)
    ensures Covers(s + t, x) <==> Covers(s, x) || Covers(t, x)
  {
    if Covers(s, x) {
      var i :| 0 <= i < |s| && Within(s[i], x);
      assert Within((s + t)[i], x);
    }
    if Covers(t, x) {
      var i :| 0 <= i < |t| && Within(t[i], x);
      assert Within((s + t)[|s| + i], x);
    }
  }

  /** Freeing the same blocks in any order ends in the same list. */
  lemma AnyOrder(fs: seq<seq<Block>>, bs: seq<Block>, gs: seq<seq<Block>>, cs: seq<Block>)
    requires ReleaseRun(fs, bs) && ReleaseRun(gs, cs)
    requires fs[0] == gs[0] && Coalesced(fs[0])
    requires forall b :: b in bs <==> b in cs
    ensures fs[|bs|] == gs[|cs|]
  {
    forall x
      ensures Covers(fs[|bs|], x) <==> Covers(gs[|cs|], x)
    {
      RunCovers(fs, bs, |bs|, x);
      RunCovers(gs, cs, |cs|, x);
      assert bs[..|bs|] == bs && cs[..|cs|] == cs;
      SameMembers(bs, cs, x);
      SameMembers(cs, bs, x);
    }
    RunEnd(fs, bs);
    RunEnd(gs, cs);
    CoalescedUnique(fs[|bs|], gs[|cs|]);
  }

  lemma SameMembers(s: seq<Block>, t: seq<Block>, x: int)
    requires forall b :: b in s ==> b in t
    ensures Covers(s, x) ==> Covers(t, x)
  {
    if Covers(s, x) {
      var i :| 0 <= i < |s| && Within(s[i], x);
      assert s[i] in t;
    }
  }

  lemma RunEnd(fs: seq<seq<Block>>, bs: seq<Block>)
    requires ReleaseRun(fs, bs) && Coalesced(fs[0])
    ensures Coalesced(fs[|bs|])
  {
    if |bs| > 0 {
      assert Released(fs[|bs| - 1], bs[|bs| - 1], fs[|bs|]);
    }
  }

  // ---- The list in memory --------------------------------------------------

  /** The address of block i, null past either end. */
  function AddrAt(s: seq<Block>, i: int): nat
  {
    if 0 <= i < |s| then s[i].addr else 0
  }

  /** The header of block i holds its size and its neighbours. */
  ghost predicate Node(m: Memory, s: seq<Block>, i: int)
    requires 0 <= i < |s|
  {
    && s[i].addr in m
    && m[s[i].addr].size == s[i].size
    && m[s[i].addr].prev == AddrAt(s, i - 1)
    && m[s[i].addr].next == AddrAt(s, i + 1)
  }

  /** The headers reached from `head` are exactly those of s, doubly linked. */
  ghost predicate Listed(m: Memory, head: nat, s: seq<Block>)
  {
    && head == AddrAt(s, 0)
    && forall i :: 0 <= i < |s| ==> Node(m, s, i)
  }

  // ---- Live blocks and the tiling ------------------------------------------

  /** The live blocks: the size of each by its address. */
  type Live = map<nat, nat>

  ghost predicate InLive(live: Live, x: int)
  {
    exists a :: a in live && Within(Block(a, live[a]), x)
  }

  ghost predicate Separate(live: Live)
  {
    && (forall a :: a in live ==> Proper(Block(a, live[a])))
    && (forall a, b :: a in live && b in live && a < b ==> Before(Block(a, live[a]), Block(b, live[b])))
  }

  /** Live headers hold their size and the mark kfree looks for. */
  ghost predicate Tagged(m: Memory, live: Live)
  {
    forall a :: a in live ==> a in m && m[a].size == live[a] && m[a].sanity == a
  }

  /** Free and live blocks are apart, and together cover the arena exactly. */
  ghost predicate Tiled(arena: seq<Block>, free: seq<Block>, live: Live)
  {
    && Coalesced(arena) && Coalesced(free) && Separate(live)
    && (forall x :: Covers(arena, x) <==> Covers(free, x) || InLive(live, x))
    && (forall x :: !(Covers(free, x) && InLive(live, x)))
  }

  /** With nothing live the free list is the one kmeminit built. */
  lemma NothingLive(arena: seq<Block>, free: seq<Block>)
    requires Tiled(arena, free, map[])
    ensures free == arena
  {
    CoalescedUnique(free, arena);
  }

  /** Blocks without a common byte lie one before the other. */
  lemma NoOverlap(b: Block, c: Block)
    requires b.size > 0 && c.size > 0
    requires forall x :: !(Within(b, x) && Within(c, x))
    ensures Before(b, c) || Before(c, b)
  {
    var x := if b.addr < c.addr then c.addr else b.addr;
    assert !(Within(b, x) && Within(c, x));
  }

  /** A free block and a live block do not overlap. */
  lemma Apart(arena: seq<Block>, free: seq<Block>, live: Live, i: int, a: nat)
    requires Tiled(arena, free, live) && 0 <= i < |free| && a in live
    ensures Before(free[i], Block(a, live[a])) || Before(Block(a, live[a]), free[i])
  {
    forall x
      ensures !(Within(free[i], x) && Within(Block(a, live[a]), x))
    {
      assert Within(free[i], x) ==> Covers(free, x);
      assert Within(Block(a, live[a]), x) ==> InLive(live, x);
    }
    NoOverlap(free[i], Block(a, live[a]));
  }

  /** Allocation moves bytes of the free list to a new live block. */
  lemma TakeTiled(arena: seq<Block>, free: seq<Block>, live: Live, b: Block, free': seq<Block>)
    requires Tiled(arena, free, live) && Taken(free, b, free') && Proper(b)
    ensures b.addr !in live && Tiled(arena, free', live[b.addr := b.size])
  {
    assert Within(b, b.addr);
    assert b.addr in live ==> Within(Block(b.addr, live[b.addr]), b.addr);
    assert b.addr in live ==> InLive(live, b.addr);
    LiveWith(live, b);
    forall c | c in live
      ensures Before(b, Block(c, live[c])) || Before(Block(c, live[c]), b)
    {
      forall x
        ensures !(Within(b, x) && Within(Block(c, live[c]), x))
      {
        assert Within(b, x) ==> Covers(free, x);
        assert Within(Block(c, live[c]), x) ==> InLive(live, x);
      }
      NoOverlap(b, Block(c, live[c]));
    }
  }

  lemma LiveWith(live: Live, b: Block)
    requires b.addr !in live
    ensures forall x :: InLive(live[b.addr := b.size], x) <==> InLive(live, x) || Within(b, x)
  {
    var live' := live[b.addr := b.size];
    forall x
      ensures InLive(live', x) <==> InLive(live, x) || Within(b, x)
    {
      if InLive(live, x) {
        var a :| a in live && Within(Block(a, live[a]), x);
        assert a in live' && Within(Block(a, live'[a]), x);
      }
      if Within(b, x) {
        assert b.addr in live' && Within(Block(b.addr, live'[b.addr]), x);
      }
    }
  }

  /** Release moves the bytes of a live block to the free list. */
  lemma ReleaseTiled(arena: seq<Block>, free: seq<Block>, live: Live, a: nat, free': seq<Block>)
    requires Tiled(arena, free, live) && a in live && Released(free, Block(a, live[a]), free')
    ensures Tiled(arena, free', live - {a})
  {
    var b, live' := Block(a, live[a]), live - {a};
    assert live'[a := live[a]] == live;
    LiveWith(live', b);
    forall c, x | c in live' && Within(Block(c, live'[c]), x)
      ensures !Within(b, x)
    {
      assert Before(b, Block(c, live[c])) || Before(Block(c, live[c]), b);
    }
  }
}
