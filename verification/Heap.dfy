// c/mem.c: the kernel heap, an address-ordered, doubly linked, first-fit free
// list with splitting and coalescing around the hole below 1 MB.
module Heap {
  import opened FreeList
  import opened FreeListSteps

  /** h/i386.h, lines 75-77. */
  const HOLESTART := 640 * 1024
  const HOLEEND := (1024 + 600) * 1024

  /** Sums and differences of size_t are modulo 2^32. */
  function Wrap(n: int): nat { n % WORD }

  /** mem_round, lines 65-68. */
  function MemRound(addr: nat): nat
  {
    Wrap((addr / 16 + if addr % 16 != 0 then 1 else 0) * 16)
  }

  /** Rounding gives the next multiple of 16, except that the last 15 words wrap to 0. */
  lemma RoundExact(addr: nat)
    requires addr < WORD
    ensures MemRound(addr) % 16 == 0
    ensures addr <= WORD - 16 ==> addr <= MemRound(addr) < addr + 16
    ensures addr > WORD - 16 ==> MemRound(addr) == 0
  {
  }

  /** Line 77: the bytes kmalloc looks for. */
  function Need(size: nat): nat
  {
    Wrap(MemRound(size) + HEADER)
  }

  /** Exactly the requests up to 0xFFFFFFE0 get room for themselves and a header. */
  lemma NeedExact(size: nat)
    requires 0 < size < WORD
    ensures Need(size) % 16 == 0
    ensures size + HEADER <= Need(size) <==> size <= 0xFFFF_FFE0
    ensures Need(size) == 0 <==> 0xFFFF_FFE0 < size <= 0xFFFF_FFF0
    ensures size > 0xFFFF_FFF0 ==> Need(size) == HEADER
  {
    RoundExact(size);
  }

  /** The first block of at least `need` bytes, or the length of the list. */
  function FirstFit(s: seq<Block>, need: nat): (i: nat)
    ensures i <= |s|
    ensures i < |s| ==> need <= s[i].size
    ensures forall t :: 0 <= t < i ==> s[t].size < need
  {
    if s == [] || need <= s[0].size then 0 else 1 + FirstFit(s[1..], need)
  }

  lemma FirstFitIs(s: seq<Block>, need: nat, i: nat)
    requires i <= |s| && (i < |s| ==> need <= s[i].size)
    requires forall t :: 0 <= t < i ==> s[t].size < need
    ensures FirstFit(s, need) == i
  {
  }

  /** What kmalloc returns: the data of the first fit, or null. */
  function Grant(s: seq<Block>, size: nat): nat
  {
    var i := FirstFit(s, Need(size));
    if size == 0 || i == |s| then 0 else s[i].addr + HEADER
  }

  /** Null comes back only for no bytes, or when no free block can hold the rounded size and a header. */
  lemma NullExact(s: seq<Block>, size: nat)
    requires Ordered(s)
    ensures Grant(s, size) == 0 <==> size == 0 || forall t :: 0 <= t < |s| ==> s[t].size < Need(size)
  {
    var i := FirstFit(s, Need(size));
    assert i < |s| ==> Proper(s[i]);
  }

  /** A granted pointer has its header and all the bytes asked for exactly when the request does not wrap. */
  lemma GrantExact(s: seq<Block>, size: nat)
    requires Ordered(s) && 0 < size < WORD && Grant(s, size) != 0
    ensures (forall x :: Grant(s, size) - HEADER <= x < Grant(s, size) + size ==> Covers(s, x)) <==> size <= 0xFFFF_FFE0
  {
    NeedExact(size);
    hide Need;
    var i := FirstFit(s, Need(size));
    var b := s[i];
    assert forall x :: Within(b, x) ==> Covers(s, x);
    assert Proper(b);
    forall t | 0 <= t < |s|
      ensures !Within(s[t], WORD)
    {
      assert Proper(s[t]);
    }
    assert !Covers(s, WORD);
  }

  /** A request that fails so: the grant is the data of the first free block, and cutting nothing off leaves that
      block free. */
  lemma GrantWraps(s: seq<Block>)
    requires Ordered(s) && s != []
    ensures Grant(s, 0xFFFF_FFE1) == s[0].addr + HEADER && Need(0xFFFF_FFE1) == 0
    ensures Splice(s, 0, 1, Rest(s[0], 0)) == s
    ensures forall x :: Within(s[0], x) ==> Covers(Splice(s, 0, 1, Rest(s[0], 0)), x)
  {
    NeedExact(0xFFFF_FFE1);
    assert Proper(s[0]);
  }

  /** The free list kmeminit makes: lines 44-56. */
  function InitialList(freemem: nat, maxaddr: nat): seq<Block>
  {
    [Block(MemRound(freemem), MemRound(Wrap(HOLESTART - freemem))),
     Block(MemRound(HOLEEND), MemRound(Wrap(maxaddr - MemRound(HOLEEND))))]
  }

  lemma InitialCoalesced(freemem: nat, maxaddr: nat)
    requires 0 < freemem < HOLESTART && HOLEEND < maxaddr < WORD - HEADER
    ensures Coalesced(InitialList(freemem, maxaddr))
  {
    var s := InitialList(freemem, maxaddr);
    LowBlock(freemem);
    HighBlock(maxaddr);
    hide MemRound;
    assert s[0].addr + s[0].size < s[1].addr;
    assert Gap(s, 0);
  }

  lemma LowBlock(freemem: nat)
    requires 0 < freemem < HOLESTART
    ensures Proper(Block(MemRound(freemem), MemRound(Wrap(HOLESTART - freemem))))
    ensures MemRound(freemem) + MemRound(Wrap(HOLESTART - freemem)) ==
      if freemem % 16 == 0 then HOLESTART else HOLESTART + 16
    ensures MemRound(freemem) == freemem <==> freemem % 16 == 0
    ensures MemRound(freemem) <= HOLESTART
  {
    RoundExact(freemem);
    RoundExact(HOLESTART - freemem);
    hide MemRound;
  }

  lemma HighBlock(maxaddr: nat)
    requires HOLEEND < maxaddr < WORD - HEADER
    ensures MemRound(HOLEEND) == HOLEEND
    ensures var b := Block(HOLEEND, MemRound(Wrap(maxaddr - HOLEEND)));
            Proper(b) && maxaddr <= b.addr + b.size < maxaddr + 16 && (b.addr + b.size) % 16 == 0
  {
    Unwrapped(maxaddr - HOLEEND);
    RoundExact(maxaddr - HOLEEND);
    hide MemRound, Wrap;
    var m := MemRound(maxaddr - HOLEEND);
    assert m == 16 * (m / 16);
    RoundExact(HOLEEND);
  }

  lemma Unwrapped(n: nat)
    requires n < WORD
    ensures Wrap(n) == n
  {
  }

  /** The first block is the memory below the hole exactly when freemem is a multiple of 16;
      otherwise it runs into the hole. */
  lemma LowExact(freemem: nat, maxaddr: nat)
    requires 0 < freemem < HOLESTART
    ensures (forall x :: Within(InitialList(freemem, maxaddr)[0], x) <==> freemem <= x < 0xA_0000) <==>
        freemem % 16 == 0
    ensures Within(InitialList(freemem, maxaddr)[0], 0xA_0000) <==> freemem % 16 != 0
  {
    LowBlock(freemem);
    hide MemRound;
    assert Within(InitialList(freemem, maxaddr)[0], HOLESTART) <==> freemem % 16 != 0;
  }

  /** One byte past a unit: the first block then covers the first 16 bytes of the hole. */
  lemma LowFails(maxaddr: nat)
    ensures InitialList(0x1001, maxaddr)[0] == Block(0x1010, HOLESTART - 0x1000)
    ensures Within(InitialList(0x1001, maxaddr)[0], HOLESTART + 15)
  {
  }

  /** At the start of a unit: the second block covers 15 bytes past maxaddr less one, not maxaddr itself. */
  lemma HighFails(freemem: nat)
    ensures InitialList(freemem, 0x40_0000)[1] == Block(HOLEEND, 0x40_0000 - HOLEEND)
    ensures !Within(InitialList(freemem, 0x40_0000)[1], 0x40_0000)
  {
  }

  lemma LastOfUnit(e: nat, n: nat)
    requires e % 16 == 0 && n <= e < n + 16
    ensures e == n + 1 <==> n % 16 == 15
  {
    assert e == 16 * (e / 16);
  }

  /** The second block is the memory from the hole to maxaddr exactly when maxaddr ends a 16-byte unit. */
  lemma HighExact(freemem: nat, maxaddr: nat)
    requires HOLEEND < maxaddr < WORD - HEADER
    ensures (forall x :: Within(InitialList(freemem, maxaddr)[1], x) <==> 0x19_6000 <= x <= maxaddr) <==>
        maxaddr % 16 == 15
  {
    var b := InitialList(freemem, maxaddr)[1];
    HighBlock(maxaddr);
    hide MemRound, Wrap, Proper;
    var e := b.addr + b.size;
    LastOfUnit(e, maxaddr);
    hide InitialList;
    assert Within(b, maxaddr) <==> maxaddr < e;
    assert Within(b, maxaddr + 1) <==> maxaddr + 1 < e;
  }

  /** A header lies at every multiple of 16. */
  ghost predicate Machine(m: Memory)
  {
    forall a :: 0 <= a < WORD && a % 16 == 0 ==> a in m
  }

  /** The bytes a live block's owner may write. */
  ghost predicate Owned(live: Live, a: nat)
  {
    exists b :: b in live && b + HEADER <= a < b + live[b]
  }

  /** A grant of `need` bytes of block i marks its header and changes no other but those of free blocks. */
  ghost predicate Granting(m: Memory, m': Memory, free: seq<Block>, i: nat, need: nat)
    requires i < |free|
  {
    && m'.Keys == m.Keys && free[i].addr in m
    && m'[free[i].addr].sanity == free[i].addr
    && (need > 0 ==> m'[free[i].addr].size == need)
    && forall a :: a in m && !Listing(free, a) && (need < free[i].size ==> a != free[i].addr + need) ==> m'[a] == m[a]
  }

  ghost predicate Listing(free: seq<Block>, a: nat)
  {
    exists t :: 0 <= t < |free| && a == free[t].addr
  }

  /** What a walk finds at block i. */
  lemma NodeAt(m: Memory, head: nat, s: seq<Block>, i: nat)
    requires Listed(m, head, s) && Ordered(s) && i < |s|
    ensures s[i].addr in m && Proper(s[i])
    ensures m[s[i].addr] == Header(s[i].size, AddrAt(s, i - 1), AddrAt(s, i + 1), m[s[i].addr].sanity)
    ensures i > 0 ==> AddrAt(s, i - 1) != 0 && AddrAt(s, i - 1) in m && Before(s[i - 1], s[i])
    ensures i + 1 < |s| ==> AddrAt(s, i + 1) != 0 && AddrAt(s, i + 1) in m && Before(s[i], s[i + 1])
    ensures i == 0 ==> head == s[0].addr
  {
    assert Node(m, s, i);
    assert i > 0 ==> Node(m, s, i - 1) && Proper(s[i - 1]);
    assert i + 1 < |s| ==> Node(m, s, i + 1) && Proper(s[i + 1]);
  }

  /** The headers of the other blocks lie elsewhere. */
  lemma NodesElse(m: Memory, head: nat, s: seq<Block>, i: nat)
    requires Listed(m, head, s) && Ordered(s) && i < |s|
    ensures forall t :: 0 <= t < |s| ==>
        s[t].addr in m && (t != i ==> s[t].addr != s[i].addr) && !(s[i].addr < s[t].addr < s[i].addr + s[i].size)
  {
    forall t | 0 <= t < |s|
      ensures s[t].addr in m && (t != i ==> s[t].addr != s[i].addr) && !(s[i].addr < s[t].addr < s[i].addr + s[i].size)
    {
      assert Node(m, s, t) && Proper(s[t]) && Proper(s[i]);
      assert t < i ==> Before(s[t], s[i]);
      assert t > i ==> Before(s[i], s[t]);
    }
  }

  /** Hooking touches no header but those of the two neighbours. */
  lemma HookKeeps(m: Memory, s: seq<Block>, i: nat, j: nat, front: nat, back: nat)
    requires i <= j <= |s|
    requires (i > 0 ==> s[i - 1].addr in m) && (j < |s| ==> s[j].addr in m)
    ensures Hooked(m, AddrAt(s, i - 1), AddrAt(s, j), front, back).Keys == m.Keys
    ensures forall a :: a in m && (i > 0 ==> a != s[i - 1].addr) && (j < |s| ==> a != s[j].addr) ==>
              Hooked(m, AddrAt(s, i - 1), AddrAt(s, j), front, back)[a] == m[a]
  {
  }

  /** The abstract side of a grant: block i gives up `need` bytes to a new live block. */
  lemma Granted(m: Memory, m': Memory, arena: seq<Block>, free: seq<Block>, live: Live, i: nat, need: nat)
    requires i < |free| && need <= free[i].size && need % 16 == 0
    requires Tiled(arena, free, live) && Tagged(m, live) && Listed(m, AddrAt(free, 0), free)
    requires Granting(m, m', free, i, need)
    ensures Tagged(m', live)
    ensures need == 0 ==> Splice(free, i, i + 1, Rest(free[i], need)) == free
    ensures need > 0 ==> var b := Block(free[i].addr, need);
              var free' := Splice(free, i, i + 1, Rest(free[i], need));
              Taken(free, b, free') && b.addr !in live && Tiled(arena, free', live[b.addr := need])
              && Tagged(m', live[b.addr := need])
  {
    assert Node(m, free, i);
    forall a | a in live
      ensures a in m' && m'[a] == m[a] && a != free[i].addr
    {
      forall t | 0 <= t < |free|
        ensures a != free[t].addr
      {
        Apart(arena, free, live, t, a);
      }
      Apart(arena, free, live, i, a);
      assert need < free[i].size ==> a != free[i].addr + need;
    }
    if need > 0 {
      CarveTaken(free, i, need);
      TakeTiled(arena, free, live, Block(free[i].addr, need), Splice(free, i, i + 1, Rest(free[i], need)));
    }
  }

  lemma GrantMarks(m: Memory, m': Memory, free: seq<Block>, i: nat, need: nat)
    requires i < |free| && Granting(m, m', free, i, need)
    ensures free[i].addr in m' && m'[free[i].addr].sanity == free[i].addr
  {
  }

  /** Memory once the header of block `curr` is marked: line 87. */
  function Marked(m: Memory, curr: nat): Memory
    requires curr in m
  {
    m[curr := m[curr].(sanity := curr)]
  }

  lemma UnlinkListed(m: Memory, head: nat, s: seq<Block>, i: nat)
    requires Listed(m, head, s) && Ordered(s) && i < |s|
    ensures s[i].addr in m
    ensures (i > 0 ==> AddrAt(s, i - 1) in m) && (i + 1 < |s| ==> AddrAt(s, i + 1) in m)
    ensures var m' := Hooked(Marked(m, s[i].addr), AddrAt(s, i - 1), AddrAt(s, i + 1), AddrAt(s, i + 1), AddrAt(s,
        i - 1));
            && Listed(m', if i == 0 then AddrAt(s, 1) else head, Splice(s, i, i + 1, []))
            && Granting(m, m', s, i, s[i].size)
  {
    hide Listed, Splice, Ordered, Hooked;
    NodeAt(m, head, s, i);
    NodesElse(m, head, s, i);
    var m1 := Marked(m, s[i].addr);
    HookListed(m, head, s, i, i + 1, [], m1);
    HookKeeps(m1, s, i, i + 1, AddrAt(s, i + 1), AddrAt(s, i - 1));
    assert Listing(s, s[i].addr) && (i > 0 ==> Listing(s, s[i - 1].addr)) && (i + 1 < |s| ==>
        Listing(s, s[i + 1].addr));
    var m' := Hooked(m1, AddrAt(s, i - 1), AddrAt(s, i + 1), AddrAt(s, i + 1), AddrAt(s, i - 1));
    assert m1.Keys == m.Keys;
    assert m'[s[i].addr] == m1[s[i].addr];
    assert Granting(m, m', s, i, s[i].size);
    assert Listed(m', if i == 0 then AddrAt(s, 1) else head, Splice(s, i, i + 1, []));
  }

  /** Memory once block `curr` is cut in two: lines 100-106. */
  function Cut(m: Memory, curr: nat, need: nat, remainder: nat): Memory
    requires curr in m && curr + need in m
  {
    var m1 := m[curr := Header(need, m[curr].prev, m[curr].next, curr)];
    m1[curr + need := Header(remainder, m[curr].prev, m[curr].next, m1[curr + need].sanity)]
  }

  lemma CutIs(m: Memory, curr: nat, need: nat, remainder: nat)
    requires curr in m && curr + need in m
    ensures var m1 := m[curr := m[curr].(size := need)];
            var m2 := m1[curr := m1[curr].(sanity := curr)];
            var m3 := m2[curr + need := m2[curr + need].(size := remainder)];
            var m4 := m3[curr + need := m3[curr + need].(prev := m3[curr].prev)];
            m4[curr + need := m4[curr + need].(next := m4[curr].next)] == Cut(m, curr, need, remainder)
    ensures Cut(m, curr, need, remainder)[curr + need].prev == m[curr].prev
    ensures Cut(m, curr, need, remainder)[curr + need].next == m[curr].next
    ensures Cut(m, curr, need, remainder).Keys == m.Keys
  {
  }

  lemma SplitListed(m: Memory, head: nat, s: seq<Block>, i: nat, need: nat)
    requires Listed(m, head, s) && Ordered(s) && i < |s| && need < s[i].size && s[i].addr + need in m
    ensures s[i].addr in m
    ensures (i > 0 ==> AddrAt(s, i - 1) in m) && (i + 1 < |s| ==> AddrAt(s, i + 1) in m)
    ensures var rest := s[i].addr + need;
            var m' := Hooked(Cut(m, s[i].addr, need, s[i].size - need), AddrAt(s, i - 1), AddrAt(s, i + 1), rest, rest);
            && Listed(m', if i == 0 then rest else head, Splice(s, i, i + 1, Rest(s[i], need)))
            && Granting(m, m', s, i, need)
  {
    hide Listed, Splice, Ordered, Hooked;
    NodeAt(m, head, s, i);
    NodesElse(m, head, s, i);
    var rest := s[i].addr + need;
    var m1 := Cut(m, s[i].addr, need, s[i].size - need);
    HookListed(m, head, s, i, i + 1, Rest(s[i], need), m1);
    HookKeeps(m1, s, i, i + 1, rest, rest);
    assert Listing(s, s[i].addr) && (i > 0 ==> Listing(s, s[i - 1].addr)) && (i + 1 < |s| ==>
        Listing(s, s[i + 1].addr));
    var m' := Hooked(m1, AddrAt(s, i - 1), AddrAt(s, i + 1), rest, rest);
    assert m1.Keys == m.Keys;
    assert m'[s[i].addr] == m1[s[i].addr];
    assert Granting(m, m', s, i, need);
    assert Listed(m', if i == 0 then rest else head, Splice(s, i, i + 1, Rest(s[i], need)));
  }

  lemma SameMachine(m: Memory, m': Memory)
    requires Machine(m) && m'.Keys == m.Keys
    ensures Machine(m')
  {
    assert forall a :: a in m <==> a in m.Keys;
  }

  lemma InMachine(m: Memory, b: Block, need: nat)
    requires Machine(m) && Proper(b) && need < b.size && need % 16 == 0
    ensures b.addr + need in m
  {
  }

  lemma TiledOrdered(arena: seq<Block>, free: seq<Block>, live: Live)
    requires Tiled(arena, free, live)
    ensures Ordered(free)
  {
  }

  lemma RestParts(b: Block, need: nat)
    requires need <= b.size
    ensures need == b.size ==> Rest(b, need) == []
  {
  }

  lemma ListEnd(s: seq<Block>, i: nat)
    requires Ordered(s) && i <= |s|
    ensures AddrAt(s, i) == 0 <==> i == |s|
  {
    assert i < |s| ==> Proper(s[i]);
  }

  // ---- Release -------------------------------------------------------------

  /** Headers of a release: only those of the list and of the block itself change, and its mark goes. */
  ghost predicate Freeing(m: Memory, m': Memory, free: seq<Block>, b: nat)
  {
    && m'.Keys == m.Keys && b in m && m'[b].sanity == 0
    && forall a :: a in m && !Listing(free, a) && a != b ==> m'[a] == m[a]
  }

  /** Memory once the freed block's header is filled in: lines 148-150. */
  function Loose(m: Memory, block: nat, next: nat, prev: nat): Memory
    requires block in m
  {
    m[block := Header(m[block].size, prev, next, 0)]
  }

  /** Line 158: only the place before the first block is at the head, even in an empty list. */
  lemma HeadOnly(m: Memory, head: nat, s: seq<Block>, k: nat)
    requires Listed(m, head, s) && Ordered(s) && k <= |s|
    ensures head == AddrAt(s, k) <==> k == 0
    ensures k > 0 ==> AddrAt(s, k - 1) != 0 && AddrAt(s, k - 1) != AddrAt(s, k)
  {
    Distinct(s);
  }

  lemma LooseIs(m: Memory, block: nat, next: nat, prev: nat)
    requires block in m
    ensures var m1 := m[block := m[block].(next := next)];
            var m2 := m1[block := m1[block].(prev := prev)];
            m2[block := m2[block].(sanity := 0)] == Loose(m, block, next, prev)
    ensures Loose(m, block, next, prev).Keys == m.Keys
  {
  }

  /** Memory once the freed block is linked in: lines 148-157. */
  function Placed(m: Memory, block: nat, next: nat, prev: nat): Memory
    requires block in m && (next != 0 ==> next in m) && (prev != 0 ==> prev in m)
  {
    Hooked(Loose(m, block, next, prev), prev, next, block, block)
  }

  lemma PlaceListed(m: Memory, head: nat, s: seq<Block>, k: nat, b: Block)
    requires Listed(m, head, s) && Ordered(s) && k <= |s| && b.addr in m && m[b.addr].size == b.size
    requires !Listing(s, b.addr)
    ensures (k > 0 ==> AddrAt(s, k - 1) in m) && (k < |s| ==> AddrAt(s, k) in m)
    ensures var m' := Placed(m, b.addr, AddrAt(s, k), AddrAt(s, k - 1));
            && Listed(m', if k == 0 then b.addr else head, Splice(s, k, k, [b]))
            && Freeing(m, m', s, b.addr)
  {
    forall t | 0 <= t < |s|
      ensures s[t].addr in m && s[t].addr != b.addr
    {
      assert Node(m, s, t) && Listing(s, s[t].addr);
    }
    var m1 := Loose(m, b.addr, AddrAt(s, k), AddrAt(s, k - 1));
    assert (k > 0 ==> Listing(s, s[k - 1].addr)) && (k < |s| ==> Listing(s, s[k].addr));
    hide Listed, Splice, Ordered, Hooked, Listing;
    HookListed(m, head, s, k, k, [b], m1);
    HookKeeps(m1, s, k, k, b.addr, b.addr);
  }

  /** Memory once the block at `first` has taken in those up to `next`: lines 175-179, 185-189 and 194-198. */
  function Absorbed(m: Memory, first: nat, size: nat, next: nat): Memory
    requires first in m && (next != 0 ==> next in m)
  {
    var m1 := m[first := Header(size, m[first].prev, next, m[first].sanity)];
    if next != 0 then m1[next := m1[next].(prev := first)] else m1
  }

  /** Memory once blocks i to j - 1 are one. */
  ghost function Merged(m: Memory, s: seq<Block>, i: nat, j: nat): Memory
    requires i < j <= |s| && Ordered(s) && s[i].addr in m && (j < |s| ==> s[j].addr in m)
  {
    Absorbed(m, s[i].addr, Stretch(s, i, j).size, AddrAt(s, j))
  }

  /** No mark changes, and no header off the list. */
  ghost predicate KeepsMarks(m: Memory, m': Memory, s: seq<Block>)
  {
    && m'.Keys == m.Keys
    && (forall a :: a in m ==> m'[a].sanity == m[a].sanity)
    && (forall a :: a in m && !Listing(s, a) ==> m'[a] == m[a])
  }

  lemma SameLink(m: Memory, a: nat, next: nat)
    requires a in m && m[a].next == next
    ensures m[a := m[a].(next := next)] == m
  {
  }

  lemma MergeListed(m: Memory, head: nat, s: seq<Block>, i: nat, j: nat)
    requires Listed(m, head, s) && Ordered(s) && i < j <= |s|
    ensures s[i].addr in m && (j < |s| ==> s[j].addr in m)
    ensures Listed(Merged(m, s, i, j), head, Splice(s, i, j, [Stretch(s, i, j)]))
    ensures KeepsMarks(m, Merged(m, s, i, j), s) && KeepsMarks(m, m, s)
  {
    NodeAt(m, head, s, i);
    NodesElse(m, head, s, i);
    var b, n := Stretch(s, i, j), AddrAt(s, j);
    var m1 := m[b.addr := Header(b.size, m[b.addr].prev, n, m[b.addr].sanity)];
    assert Listing(s, s[i].addr) && (j < |s| ==> Listing(s, s[j].addr));
    assert b.addr == s[i].addr;
    if i > 0 {
      NodeAt(m, head, s, i - 1);
      SameLink(m1, AddrAt(s, i - 1), b.addr);
    }
    hide Listed, Ordered, Splice, Stretch;
    HookListed(m, head, s, i, j, [b], m1);
    assert n != 0 ==> j < |s|;
    assert Merged(m, s, i, j) == Hooked(m1, AddrAt(s, i - 1), n, b.addr, b.addr);
  }

  /** Line 174: between ordered neighbours the three sizes add up exactly when both sides touch. */
  lemma ThreeWay(s: seq<Block>, k: nat)
    requires Ordered(s) && 0 < k < |s| - 1
    ensures Wrap(s[k - 1].addr + s[k - 1].size + s[k].size) == s[k + 1].addr <==> !Gap(s, k - 1) && !Gap(s, k)
  {
    assert Before(s[k - 1], s[k]) && Before(s[k], s[k + 1]) && Proper(s[k + 1]);
  }

  /** What merge_coincident reads. */
  lemma AroundNodes(m: Memory, head: nat, s: seq<Block>, k: nat)
    requires Listed(m, head, s) && Ordered(s) && k < |s|
    ensures s[k].addr in m && m[s[k].addr] == Header(s[k].size, AddrAt(s, k - 1), AddrAt(s, k + 1), m[s[k].addr].sanity)
    ensures if k > 0 then AddrAt(s, k - 1) != 0 && AddrAt(s, k - 1) in m && m[s[k - 1].addr].size == s[k - 1].size
            else AddrAt(s, k - 1) == 0
    ensures if k + 1 < |s| then AddrAt(s, k + 1) != 0 && AddrAt(s, k + 1) in m && m[s[k + 1].addr].size == s[k + 1].size
                                && m[s[k + 1].addr].next == AddrAt(s, k + 2)
            else AddrAt(s, k + 1) == 0
    ensures AddrAt(s, k + 2) != 0 ==> AddrAt(s, k + 2) in m
  {
    NodeAt(m, head, s, k);
    if k > 0 {
      NodeAt(m, head, s, k - 1);
    }
    if k + 1 < |s| {
      NodeAt(m, head, s, k + 1);
    }
  }

  /** What the tests of lines 174, 184 and 193 mean. */
  lemma AroundTests(s: seq<Block>, k: nat)
    requires Ordered(s) && k < |s|
    ensures k > 0 ==> (Wrap(s[k - 1].addr + s[k - 1].size) == s[k].addr <==> JoinLow(s, k) < k)
    ensures k + 1 < |s| ==> (Wrap(s[k].addr + s[k].size) == s[k + 1].addr <==> JoinHigh(s, k) > k + 1)
    ensures 0 < k < |s| - 1 ==>
              (Wrap(s[k - 1].addr + s[k - 1].size + s[k].size) == s[k + 1].addr <==>
                  JoinLow(s, k) < k && JoinHigh(s, k) > k + 1)
  {
    assert k > 0 ==> Before(s[k - 1], s[k]) && Proper(s[k]);
    assert k + 1 < |s| ==> Before(s[k], s[k + 1]) && Proper(s[k + 1]);
    if 0 < k < |s| - 1 {
      ThreeWay(s, k);
    }
  }

  /** How long the joined block is. */
  lemma AroundSizes(s: seq<Block>, k: nat)
    requires Ordered(s) && k < |s|
    ensures var i, j := JoinLow(s, k), JoinHigh(s, k);
            Stretch(s, i,
                j).size == s[k].size + (if i < k then s[k - 1].size else 0) + (if j > k + 1 then s[k + 1].size else 0)
    ensures Stretch(s, JoinLow(s, k), JoinHigh(s, k)).size < WORD
    ensures JoinLow(s, k) == k && JoinHigh(s, k) == k + 1 ==> Joined(s, k) == s
  {
    assert Proper(s[k]) && (k > 0 ==> Proper(s[k - 1])) && (k + 1 < |s| ==> Proper(s[k + 1]));
    assert s == s[..k] + [s[k]] + s[k + 1..];
  }

  /** Taking in neighbours does not touch a header that is neither first nor next. */
  lemma AbsorbedElsewhere(m: Memory, first: nat, size: nat, next: nat, a: nat)
    requires first in m && (next != 0 ==> next in m) && a in m && a != first && a != next
    ensures a in Absorbed(m, first, size, next) && Absorbed(m, first, size, next)[a] == m[a]
  {
  }

  predicate TouchesBoth(m: Memory, block: nat, prev: nat, next: nat)
    requires block in m && (prev != 0 ==> prev in m)
  {
    next != 0 && prev != 0 && Wrap(prev + m[prev].size + m[block].size) == next
  }

  predicate TouchesPrev(m: Memory, block: nat, prev: nat)
    requires prev != 0 ==> prev in m
  {
    prev != 0 && Wrap(prev + m[prev].size) == block
  }

  predicate TouchesNext(m: Memory, block: nat, next: nat)
    requires block in m
  {
    next != 0 && Wrap(block + m[block].size) == next
  }

  /** What the tests of merge_coincident say, in terms of the headers they read. */
  lemma AroundTouch(m: Memory, head: nat, s: seq<Block>, k: nat, block: nat, prev: nat, next: nat)
    requires Listed(m, head, s) && Ordered(s) && k < |s|
    requires block == s[k].addr && prev == AddrAt(s, k - 1) && next == AddrAt(s, k + 1)
    ensures block in m && (prev != 0 ==> prev in m)
    ensures TouchesPrev(m, block, prev) <==> JoinLow(s, k) < k
    ensures TouchesNext(m, block, next) <==> JoinHigh(s, k) > k + 1
    ensures TouchesBoth(m, block, prev, next) <==> TouchesPrev(m, block, prev) && TouchesNext(m, block, next)
  {
    AroundNodes(m, head, s, k);
    AroundTests(s, k);
    hide Listed, Ordered, Gap, JoinLow, JoinHigh;
  }

  /** The length given to the joined block is its stretch. */
  lemma AroundLengths(m: Memory, head: nat, s: seq<Block>, k: nat, block: nat, prev: nat, next: nat)
    requires Listed(m, head, s) && Ordered(s) && k < |s|
    requires block == s[k].addr && prev == AddrAt(s, k - 1) && next == AddrAt(s, k + 1)
    ensures block in m && (prev != 0 ==> prev in m) && (next != 0 ==> next in m)
    ensures var size := Stretch(s, JoinLow(s, k), JoinHigh(s, k)).size;
            && (JoinLow(s, k) < k && JoinHigh(s, k) > k + 1 ==>
                prev != 0 && next != 0 && Wrap(m[prev].size + m[next].size + m[block].size) == size)
            && (JoinLow(s, k) < k && JoinHigh(s, k) == k + 1 ==>
                prev != 0 && Wrap(m[prev].size + m[block].size) == size)
            && (JoinLow(s, k) == k && JoinHigh(s, k) > k + 1 ==>
                next != 0 && Wrap(m[block].size + m[next].size) == size)
  {
    AroundNodes(m, head, s, k);
    AroundSizes(s, k);
    hide Listed, Ordered, Gap, Stretch, Splice;
  }

  lemma AroundEnds(m: Memory, head: nat, s: seq<Block>, k: nat)
    requires Listed(m, head, s) && Ordered(s) && k < |s|
    ensures JoinLow(s, k) < k ==> JoinLow(s, k) == k - 1 && s[JoinLow(s, k)].addr == AddrAt(s, k - 1)
    ensures AddrAt(s, JoinHigh(s, k)) == AddrAt(s, if JoinHigh(s, k) > k + 1 then k + 2 else k + 1)
    ensures AddrAt(s, k - 1) != s[k].addr && AddrAt(s, k + 1) != s[k].addr
  {
    Distinct(s);
  }

  /** Which tests of merge_coincident hold, and which of its assignments gives the joined list. */
  lemma Around(m: Memory, head: nat, s: seq<Block>, k: nat, block: nat, prev: nat, next: nat, after: nat,
      merged: Memory)
    requires Listed(m, head, s) && Ordered(s) && k < |s| && block == s[k].addr
    requires prev == AddrAt(s, k - 1) && next == AddrAt(s, k + 1) && after == AddrAt(s, k + 2)
    requires s[JoinLow(s, k)].addr in m && (JoinHigh(s, k) < |s| ==> s[JoinHigh(s, k)].addr in m)
    requires merged == Merged(m, s, JoinLow(s, k), JoinHigh(s, k))
    ensures block in m && m[block].prev == prev && m[block].next == next
    ensures (prev != 0 ==> prev in m) && (next != 0 ==> next in m && m[next].next == after) && (after != 0 ==>
        after in m)
    ensures TouchesBoth(m, block, prev, next) ==>
              Absorbed(m, prev, Wrap(m[prev].size + m[next].size + m[block].size), after) == merged
    ensures TouchesPrev(m, block, prev) && !TouchesBoth(m, block, prev, next) ==>
              && Absorbed(m, prev, Wrap(m[prev].size + m[block].size), next) == merged
              && block in merged && merged[block] == m[block] && !TouchesNext(m, block, next)
    ensures TouchesNext(m, block, next) && !TouchesPrev(m, block, prev) ==>
              Absorbed(m, block, Wrap(m[block].size + m[next].size), after) == merged
    ensures !TouchesPrev(m, block, prev) && !TouchesNext(m, block, next) ==> Joined(s, k) == s
  {
    AroundNodes(m, head, s, k);
    AroundTouch(m, head, s, k, block, prev, next);
    AroundLengths(m, head, s, k, block, prev, next);
    AroundEnds(m, head, s, k);
    AroundSizes(s, k);
    hide Absorbed, Listed, Ordered, Stretch, Splice, Joined, JoinLow, JoinHigh, TouchesPrev, TouchesNext,
        TouchesBoth, AddrAt, Wrap;
    if JoinLow(s, k) < k && JoinHigh(s, k) == k + 1 {
      AbsorbedElsewhere(m, prev, Wrap(m[prev].size + m[block].size), next, block);
    }
  }

  /** The memory merge_coincident ends with, and the way to it. */
  lemma MergePlan(m: Memory, head: nat, s: seq<Block>, k: nat, block: nat) returns (merged: Memory)
    requires Listed(m, head, s) && k < |s| && NearlyCoalesced(s, k) && block == s[k].addr
    ensures Listed(merged, head, Joined(s, k)) && KeepsMarks(m, merged, s) && KeepsMarks(m, m, s)
    ensures block in m
    ensures var prev, next := m[block].prev, m[block].next;
            && (prev != 0 ==> prev in m) && (next != 0 ==> next in m && (m[next].next != 0 ==> m[next].next in m))
            && (TouchesBoth(m, block, prev, next) ==>
                  Absorbed(m, prev, Wrap(m[prev].size + m[next].size + m[block].size), m[next].next) == merged)
            && (TouchesPrev(m, block, prev) && !TouchesBoth(m, block, prev, next) ==>
                  && Absorbed(m, prev, Wrap(m[prev].size + m[block].size), next) == merged
                  && block in merged && merged[block] == m[block] && !TouchesNext(m, block, next))
            && (TouchesNext(m, block, next) && !TouchesPrev(m, block, prev) ==>
                  Absorbed(m, block, Wrap(m[block].size + m[next].size), m[next].next) == merged)
            && (!TouchesPrev(m, block, prev) && !TouchesNext(m, block, next) ==> Joined(s, k) == s)
  {
    var i, j := JoinLow(s, k), JoinHigh(s, k);
    MergeListed(m, head, s, i, j);
    merged := Merged(m, s, i, j);
    Around(m, head, s, k, block, AddrAt(s, k - 1), AddrAt(s, k + 1), AddrAt(s, k + 2), merged);
    hide Listed, Ordered, Stretch, Splice, TouchesPrev, TouchesNext, TouchesBoth, Absorbed, KeepsMarks, Wrap;
  }

  /** A block whose links lead to itself. */
  predicate Looped(m: Memory, block: nat)
  {
    block in m && block != 0 && m[block].next == block && m[block].prev == block && 0 < m[block].size < WORD &&
        block < WORD
  }

  /** Merging such a block with itself, which only a size of 2^31 brings about, changes nothing. */
  lemma LoopPlan(m: Memory, block: nat)
    requires Looped(m, block)
    ensures block in m && m[block].next == block && m[block].prev == block && block != 0
    ensures TouchesBoth(m, block, block, block) ==>
              Absorbed(m, block, Wrap(m[block].size + m[block].size + m[block].size), block) == m
    ensures !TouchesPrev(m, block, block) && !TouchesNext(m, block, block)
  {
    var size := m[block].size;
    if Wrap(block + size + size) == block {
      WrapsTo(block, size + size);
      assert Wrap(size + size + size) == size;
    }
  }

  lemma WrapsTo(b: nat, n: nat)
    requires b < WORD && Wrap(b + n) == b && 0 < n < 2 * WORD
    ensures n == WORD
  {
  }

  /** From a head that leads to such a block the headers chain no list. */
  lemma NoList(m: Memory, m': Memory, head: nat, free: seq<Block>, k: nat, s: seq<Block>)
    requires Listed(m, head, free) && Ordered(free) && k < |free| && Looped(m', free[k].addr)
    requires forall a :: a in m && a != free[k].addr ==> a in m' && m'[a] == m[a]
    ensures !Listed(m', head, s)
  {
    if Listed(m', head, s) {
      SameWalk(m, m', head, free, k, s, k);
      EndlessWalk(m', head, s, k, free[k].addr, |s| - 1);
    }
  }

  /** Up to the block the walk is the old one. */
  lemma {:induction false} SameWalk(m: Memory, m': Memory, head: nat, free: seq<Block>, k: nat, s: seq<Block>, i: nat)
    requires Listed(m, head, free) && Ordered(free) && k < |free|
    requires forall a :: a in m && a != free[k].addr ==> a in m' && m'[a] == m[a]
    requires Listed(m', head, s) && i <= k
    ensures i < |s| && s[i].addr == free[i].addr
  {
    NodeAt(m, head, free, i);
    if i > 0 {
      SameWalk(m, m', head, free, k, s, i - 1);
      NodeAt(m, head, free, i - 1);
      assert Node(m', s, i - 1);
      assert free[i - 1].addr != free[k].addr by { assert Before(free[i - 1], free[k]); }
    }
  }

  /** From the block on it stays there. */
  lemma {:induction false} EndlessWalk(m: Memory, head: nat, s: seq<Block>, k: nat, block: nat, i: nat)
    requires Listed(m, head, s) && Looped(m, block) && k <= i < |s| && s[k].addr == block
    ensures s[i].addr == block && i + 1 < |s|
  {
    if i > k {
      EndlessWalk(m, head, s, k, block, i - 1);
      assert Node(m, s, i - 1);
    }
    assert Node(m, s, i);
  }

  /** A listed block linked in once more is its own neighbour. */
  lemma PlacedAgain(m: Memory, head: nat, free: seq<Block>, k: nat)
    requires Listed(m, head, free) && Ordered(free) && k < |free|
    ensures var b := free[k].addr;
      && b in m && (AddrAt(free, k - 1) != 0 ==> AddrAt(free, k - 1) in m) && AddrAt(free, k - 1) != b
      && Placed(m, b, b, AddrAt(free, k - 1)) == m[b := Header(m[b].size, b, b, 0)]
      && Looped(m[b := Header(m[b].size, b, b, 0)], b)
  {
    NodeAt(m, head, free, k);
    var b, p := free[k].addr, AddrAt(free, k - 1);
    if k > 0 {
      NodeAt(m, head, free, k - 1);
      assert m[p] == m[p].(next := b);
    }
  }

  /** The abstract side of kfree: the block at `a` goes back before free block k. */
  lemma Freed(arena: seq<Block>, free: seq<Block>, live: Live, k: nat, a: nat)
    requires Tiled(arena, free, live) && a in live && k <= |free|
    requires k > 0 ==> free[k - 1].addr < a
    requires k < |free| ==> a <= free[k].addr
    ensures var s := Splice(free, k, k, [Block(a, live[a])]);
            && !Listing(free, a) && k < |s| && s[k].addr == a && NearlyCoalesced(s, k)
            && Released(free, Block(a, live[a]), Joined(s, k))
            && Tiled(arena, Joined(s, k), live - {a})
  {
    var b := Block(a, live[a]);
    var s := Splice(free, k, k, [b]);
    forall t | 0 <= t < |free|
      ensures a != free[t].addr
    {
      Apart(arena, free, live, t, a);
    }
    if k > 0 {
      Apart(arena, free, live, k - 1, a);
    }
    if k < |free| {
      Apart(arena, free, live, k, a);
    }
    PlacedOrdered(free, k, b);
    JoinedCoalesced(s, k);
    ReleaseTiled(arena, free, live, a, Joined(s, k));
  }

  /** Joining leaves the marks of live blocks, and the freed block's lost mark, as they are. */
  lemma FreeingOn(m: Memory, m1: Memory, m2: Memory, free: seq<Block>, k: nat, b: Block)
    requires Freeing(m, m1, free, b.addr) && k <= |free|
    requires KeepsMarks(m1, m2, Splice(free, k, k, [b]))
    ensures Freeing(m, m2, free, b.addr)
  {
    var s := Splice(free, k, k, [b]);
    forall a | Listing(s, a)
      ensures Listing(free, a) || a == b.addr
    {
      var t :| 0 <= t < |s| && a == s[t].addr;
      assert t < k ==> a == free[t].addr;
      assert t > k ==> a == free[t - 1].addr;
    }
  }

  lemma FreedTagged(m: Memory, m': Memory, arena: seq<Block>, free: seq<Block>, live: Live, a: nat)
    requires Tiled(arena, free, live) && Tagged(m, live) && Freeing(m, m', free, a)
    ensures Tagged(m', live - {a})
  {
    forall c | c in live
      ensures !Listing(free, c)
    {
      forall t | 0 <= t < |free|
        ensures c != free[t].addr
      {
        Apart(arena, free, live, t, c);
      }
    }
  }

  /** Memory once a free block's links lead to itself. */
  function Unhooked(m: Memory, b: nat): Memory
  {
    if b in m then m[b := Header(m[b].size, b, b, 0)] else m
  }

  lemma LiveMarked(m: Memory, live: Live, a: nat)
    requires Tagged(m, live) && a in live
    ensures a in m && m[a].sanity == a && m[a].size == live[a]
  {
  }

  lemma Ascending(s: seq<Block>, i: nat, j: nat)
    requires Ordered(s) && i < j < |s|
    ensures s[i].addr < s[j].addr
  {
    assert Before(s[i], s[j]) && Proper(s[i]);
  }

  /** The walk for a listed block stops at it. */
  lemma Found(free: seq<Block>, block: nat, k: nat)
    requires Ordered(free) && Listing(free, block) && k <= |free|
    requires (forall t :: 0 <= t < k ==> free[t].addr < block) && (k < |free| ==> block <= free[k].addr)
    ensures k < |free| && free[k].addr == block
  {
    var t :| 0 <= t < |free| && block == free[t].addr;
    if k < t {
      Ascending(free, k, t);
    }
  }

  /** In a proper list no block is its own neighbour. */
  lemma NotLooped(m: Memory, head: nat, s: seq<Block>, k: nat)
    requires k < |s| && Listed(m, head, s) && NearlyCoalesced(s, k)
    ensures !Looped(m, s[k].addr)
  {
    NodeAt(m, head, s, k);
    if k + 1 < |s| {
      NodeAt(m, head, s, k + 1);
      assert Before(s[k], s[k + 1]);
    }
  }

  /** What linking a live block in leads to. */
  lemma PlaceLive(m: Memory, head: nat, arena: seq<Block>, free: seq<Block>, live: Live, k: nat,
      a: nat) returns (s: seq<Block>)
    requires Tiled(arena, free, live) && Tagged(m, live) && Listed(m, head, free) && Ordered(free) && a in live &&
        k <= |free|
    requires (forall t :: 0 <= t < k ==> free[t].addr < a) && (k < |free| ==> a <= free[k].addr)
    ensures var b, next, prev := Block(a, live[a]), AddrAt(free, k), AddrAt(free, k - 1);
      && a in m && (next != 0 ==> next in m && next != prev) && (prev != 0 ==> prev in m)
      && s == Splice(free, k, k, [b]) && k < |s| && s[k].addr == a && Ordered(s) && NearlyCoalesced(s, k)
      && Listed(Placed(m, a, next, prev), if next == head then a else head, s)
      && Freeing(m, Placed(m, a, next, prev), free, a) && !Looped(Placed(m, a, next, prev), a)
      && Released(free, b, Joined(s, k)) && Tiled(arena, Joined(s, k), live - {a})
  {
    hide Tiled, Tagged, Ordered, Listed, Freeing, Listing, NearlyCoalesced, Joined, Released, Splice, Placed, Looped;
    var b := Block(a, live[a]);
    LiveMarked(m, live, a);
    HeadOnly(m, head, free, k);
    ListEnd(free, k);
    Freed(arena, free, live, k, a);
    PlaceListed(m, head, free, k, b);
    s := Splice(free, k, k, [b]);
    NotLooped(Placed(m, a, AddrAt(free, k), AddrAt(free, k - 1)), if k == 0 then a else head, s, k);
  }

  /** What linking a free block in leads to. */
  lemma PlaceFree(m: Memory, head: nat, free: seq<Block>, k: nat, a: nat)
    requires Listed(m, head, free) && Ordered(free) && Listing(free, a) && k <= |free|
    requires (forall t :: 0 <= t < k ==> free[t].addr < a) && (k < |free| ==> a <= free[k].addr)
    ensures var next, prev := AddrAt(free, k), AddrAt(free, k - 1);
      && a in m && next == a && next != prev && (prev != 0 ==> prev in m)
      && Placed(m, a, next, prev) == Unhooked(m, a) && Looped(Unhooked(m, a), a)
      && forall s :: !Listed(Unhooked(m, a), head, s)
  {
    hide Listed, Looped, Placed, Ordered;
    Found(free, a, k);
    PlacedAgain(m, head, free, k);
    forall s
      ensures !Listed(Unhooked(m, a), head, s)
    {
      NoList(m, Unhooked(m, a), head, free, k, s);
    }
  }

  lemma FreedMachine(m: Memory, m': Memory, free: seq<Block>, a: nat)
    requires Machine(m) && Freeing(m, m', free, a)
    ensures Machine(m')
  {
    SameMachine(m, m');
  }

  /** The header kfree looks at is there. */
  lemma HeaderAt(m: Memory, a: nat)
    requires Machine(m) && a < WORD && a % 16 == 0
    ensures a in m
  {
  }

  class Heap {
    var mem: Memory
    var freeMemStart: nat
    ghost var arena: seq<Block>
    ghost var free: seq<Block>
    ghost var live: Live

    /** In every state the headers chain the free list, live headers carry their mark, and free and live blocks tile
        the arena. */
    ghost predicate Valid()
      reads this
    {
      && Machine(mem)
      && Listed(mem, freeMemStart, free)
      && Tagged(mem, live)
      && Tiled(arena, free, live)
    }

    constructor (contents: Memory)
      requires Machine(contents)
      ensures Valid() && mem == contents && freeMemStart == 0
      ensures arena == free == [] && live == map[]
    {
      mem, freeMemStart := contents, 0;
      arena, free, live := [], [], map[];
      new;
      assert forall x :: !Covers([], x) && !InLive(map[], x);
    }

    /** kmeminit, lines 34-61. */
    method KMemInit(freemem: nat, maxaddr: nat)
      requires Machine(mem) && 0 < freemem < HOLESTART && HOLEEND < maxaddr < WORD - HEADER
      modifies this
      ensures Valid() && live == map[]
      ensures free == arena == InitialList(freemem, maxaddr)
    {
      InitialCoalesced(freemem, maxaddr);
      LowBlock(freemem);
      HighBlock(maxaddr);
      hide MemRound, Coalesced;
      freeMemStart := MemRound(freemem);
      mem := mem[freeMemStart := mem[freeMemStart].(size := MemRound(Wrap(HOLESTART - freemem)))];
      var afterhole := MemRound(HOLEEND);
      mem := mem[afterhole := mem[afterhole].(size := MemRound(Wrap(maxaddr - MemRound(HOLEEND))))];
      mem := mem[afterhole := mem[afterhole].(next := 0)];
      mem := mem[afterhole := mem[afterhole].(prev := freeMemStart)];
      mem := mem[freeMemStart := mem[freeMemStart].(next := afterhole)];
      mem := mem[freeMemStart := mem[freeMemStart].(prev := 0)];
      arena, live := InitialList(freemem, maxaddr), map[];
      free := arena;
      assert forall x :: !InLive(live, x);
    }

    /** A live block's owner writes its data. */
    method Store(contents: Memory)
      requires Valid()
      requires contents.Keys == mem.Keys && forall a :: a in mem && !Owned(live, a) ==> contents[a] == mem[a]
      modifies `mem
      ensures Valid() && mem == contents
    {
      forall i | 0 <= i < |free|
        ensures !Owned(live, free[i].addr)
      {
        forall b | b in live
          ensures !(b + HEADER <= free[i].addr < b + live[b])
        {
          Apart(arena, free, live, i, b);
        }
      }
      forall a | a in live
        ensures !Owned(live, a)
      {
        forall b | b in live
          ensures !(b + HEADER <= a < b + live[b])
        {
          assert b < a ==> Before(Block(b, live[b]), Block(a, live[a]));
        }
      }
      forall i | 0 <= i < |free|
        ensures Node(contents, free, i)
      {
        assert Node(mem, free, i);
      }
      mem := contents;
    }

    /** Lines 88-95 and 108-115: the links on either side of a change. */
    method Hook(prev: nat, next: nat, front: nat, back: nat)
      requires (prev != 0 ==> prev in mem) && (next != 0 ==> next in mem)
      modifies `mem, `freeMemStart
      ensures mem == Hooked(old(mem), prev, next, front, back)
      ensures freeMemStart == if prev != 0 then old(freeMemStart) else front
    {
      if prev != 0 {
        mem := mem[prev := mem[prev].(next := front)];
      } else {
        freeMemStart := front;
      }
      if next != 0 {
        mem := mem[next := mem[next].(prev := back)];
      }
    }

    /** Lines 86-96: block i leaves the list whole. */
    method Unlink(curr: nat, ghost i: nat)
      requires Listed(mem, freeMemStart, free) && Ordered(free)
      requires i < |free| && curr == free[i].addr
      modifies `mem, `freeMemStart
      ensures Listed(mem, freeMemStart, Splice(free, i, i + 1, []))
      ensures Granting(old(mem), mem, free, i, free[i].size)
    {
      hide Listed, Splice, Ordered, Granting, Hooked;
      NodeAt(mem, freeMemStart, free, i);
      UnlinkListed(mem, freeMemStart, free, i);
      mem := mem[curr := mem[curr].(sanity := curr)];
      Hook(mem[curr].prev, mem[curr].next, mem[curr].next, mem[curr].prev);
    }

    /** Lines 99-115: `need` bytes are cut from the front of block i; the rest takes its place. */
    method Split(curr: nat, need: nat, remainder: nat, ghost i: nat)
      requires Listed(mem, freeMemStart, free) && Ordered(free)
      requires i < |free| && curr == free[i].addr && need % 16 == 0 && 0 < remainder == free[i].size - need
      requires curr + need in mem
      modifies `mem, `freeMemStart
      ensures Listed(mem, freeMemStart, Splice(free, i, i + 1, Rest(free[i], need)))
      ensures Granting(old(mem), mem, free, i, need)
    {
      hide Listed, Splice, Ordered, Granting, Rest, Hooked, Cut;
      NodeAt(mem, freeMemStart, free, i);
      SplitListed(mem, freeMemStart, free, i, need);
      CutIs(mem, curr, need, remainder);
      mem := mem[curr := mem[curr].(size := need)];
      mem := mem[curr := mem[curr].(sanity := curr)];
      var rest := Wrap(curr + mem[curr].size);
      mem := mem[rest := mem[rest].(size := remainder)];
      mem := mem[rest := mem[rest].(prev := mem[curr].prev)];
      mem := mem[rest := mem[rest].(next := mem[curr].next)];
      assert mem == Cut(old(mem), curr, need, remainder);
      Hook(mem[rest].prev, mem[rest].next, rest, rest);
    }

    /** Lines 81-117: block i is unlinked or cut. */
    method Carve(curr: nat, need: nat, ghost i: nat)
      requires Valid() && i < |free| && curr == free[i].addr && need <= free[i].size && need % 16 == 0
      modifies `mem, `freeMemStart, `free, `live
      ensures Valid() && curr in mem && mem[curr].sanity == curr
      ensures need == 0 ==> free == old(free) && live == old(live)
      ensures need > 0 ==> curr !in old(live) && live == old(live)[curr := need]
      ensures need > 0 ==> Taken(old(free), Block(curr, need), free)
    {
      TiledOrdered(arena, free, live);
      NodeAt(mem, freeMemStart, free, i);
      hide Tiled, Machine, Listed, Tagged, Granting, Taken, Splice, Rest, Ordered;
      var remainder := mem[curr].size - need;
      assert need == free[i].size ==> Rest(free[i], need) == [] by { RestParts(free[i], need); }
      if remainder == 0 {
        Unlink(curr, i);
      } else {
        InMachine(mem, free[i], need);
        Split(curr, need, remainder, i);
      }
      SameMachine(old(mem), mem);
      Granted(old(mem), mem, arena, free, live, i, need);
      GrantMarks(old(mem), mem, free, i, need);
      free := Splice(free, i, i + 1, Rest(free[i], need));
      if need > 0 {
        live := live[curr := need];
      }
    }

    /** kmalloc, lines 71-122: first fit; a request that wraps to no bytes at all is granted the data of the first
        free block. */
    method KMalloc(size: nat) returns (ptr: nat)
      requires Valid() && size < WORD
      modifies `mem, `freeMemStart, `free, `live
      ensures Valid()
      ensures ptr == Grant(old(free), size)
      ensures ptr == 0 || Need(size) == 0 ==> free == old(free) && live == old(live)
      ensures ptr != 0 ==> ptr - HEADER in mem && mem[ptr - HEADER].sanity == ptr - HEADER
      ensures ptr != 0 && Need(size) > 0 ==> ptr - HEADER !in old(live) && live == old(live)[ptr - HEADER := Need(size)]
      ensures ptr != 0 && Need(size) > 0 ==> Taken(old(free), Block(ptr - HEADER, Need(size)), free)
    {
      TiledOrdered(arena, free, live);
      hide Tiled, Machine, Tagged, Ordered, MemRound, Taken;
      if size == 0 {
        return 0;
      }
      var curr := freeMemStart;
      NeedExact(size);
      var need := Wrap(MemRound(size) + HEADER);
      ghost var i: nat := 0;
      assert freeMemStart == AddrAt(free, 0);
      hide Listed;
      while curr != 0
        invariant mem == old(mem) && freeMemStart == old(freeMemStart) && free == old(free) && live == old(live)
        invariant i <= |free| && curr == AddrAt(free, i)
        invariant forall t :: 0 <= t < i ==> free[t].size < need
        decreases |free| - i
      {
        ListEnd(free, i);
        NodeAt(mem, freeMemStart, free, i);
        if need <= mem[curr].size {
          FirstFitIs(free, need, i);
          Carve(curr, need, i);
          return curr + HEADER;
        }
        curr := mem[curr].next;
        i := i + 1;
      }
      ListEnd(free, i);
      FirstFitIs(free, need, |free|);
      return 0;
    }

    /** Lines 147-160: the block is linked in between `prev` and `next`. */
    method Place(block: nat, next: nat, prev: nat)
      requires block in mem && (next != 0 ==> next in mem) && (prev != 0 ==> prev in mem) && (next != 0 ==>
          next != prev)
      modifies `mem, `freeMemStart
      ensures mem == Placed(old(mem), block, next, prev)
      ensures freeMemStart == if next == old(freeMemStart) then block else old(freeMemStart)
    {
      LooseIs(mem, block, next, prev);
      mem := mem[block := mem[block].(next := next)];
      mem := mem[block := mem[block].(prev := prev)];
      mem := mem[block := mem[block].(sanity := 0)];
      if next != 0 {
        mem := mem[next := mem[next].(prev := block)];
      }
      if prev != 0 {
        mem := mem[prev := mem[prev].(next := block)];
      }
      if next == freeMemStart {
        freeMemStart := block;
      }
    }

    /** Lines 175-179, 185-189 and 194-198: one block takes in those up to `next`. */
    method Absorb(first: nat, size: nat, next: nat)
      requires first in mem && (next != 0 ==> next in mem)
      modifies `mem
      ensures mem == Absorbed(old(mem), first, size, next)
    {
      mem := mem[first := mem[first].(size := size)];
      mem := mem[first := mem[first].(next := next)];
      if next != 0 {
        mem := mem[next := mem[next].(prev := first)];
      }
    }

    /** merge_coincident, lines 168-200; a block that is its own neighbour stays so. */
    method MergeCoincident(block: nat, ghost s: seq<Block>, ghost k: nat)
      requires Looped(mem, block) ||
        (Listed(mem, freeMemStart, s) && k < |s| && NearlyCoalesced(s, k) && block == s[k].addr)
      modifies `mem
      ensures if Looped(old(mem), block) then mem == old(mem)
              else Listed(mem, freeMemStart, Joined(s, k)) && KeepsMarks(old(mem), mem, s)
    {
      hide Listed, Ordered, NearlyCoalesced, Joined, Absorbed, KeepsMarks, AddrAt, Wrap, Looped;
      ghost var merged := mem;
      if Looped(mem, block) {
        LoopPlan(mem, block);
      } else {
        merged := MergePlan(mem, freeMemStart, s, k, block);
      }
      var adjNext := mem[block].next;
      var adjPrev := mem[block].prev;
      if adjNext != 0 && adjPrev != 0 && Wrap(adjPrev + mem[adjPrev].size + mem[block].size) == adjNext {
        Absorb(adjPrev, Wrap(mem[adjPrev].size + mem[adjNext].size + mem[block].size), mem[adjNext].next);
        return;
      }
      if adjPrev != 0 && Wrap(adjPrev + mem[adjPrev].size) == block {
        Absorb(adjPrev, Wrap(mem[adjPrev].size + mem[block].size), adjNext);
      }
      if adjNext != 0 && Wrap(block + mem[block].size) == mem[block].next {
        Absorb(block, Wrap(mem[block].size + mem[mem[block].next].size), mem[mem[block].next].next);
      }
    }

    /**
     * kfree, lines 126-165.  The header looked at is that of a live block, or of
     * a free one, or it does not carry its own address.  A free block carries it
     * after a grant that wrapped to no bytes: it then ends up linked to itself.
     */
    method KFree(ptr: nat) returns (r: int)
      requires Valid() && ptr < WORD && ptr % 16 == 0
      requires ptr != 0 && mem[ptr - HEADER].sanity == ptr - HEADER ==>
          ptr - HEADER in live || Listing(free, ptr - HEADER)
      modifies `mem, `freeMemStart, `free, `live
      ensures r == if ptr != 0 && ptr - HEADER in old(mem) &&
          old(mem)[ptr - HEADER].sanity == ptr - HEADER then 1 else 0
      ensures ptr != 0 && ptr - HEADER in old(live) ==> r == 1
      ensures r == 0 || ptr - HEADER in old(live) ==> Valid()
      ensures r == 0 ==> mem == old(mem) && freeMemStart == old(freeMemStart) && free == old(free) && live == old(live)
      ensures r == 1 && ptr - HEADER in old(live) ==>
        live == old(live) - {ptr - HEADER} && Released(old(free), Block(ptr - HEADER, old(live)[ptr - HEADER]), free)
      ensures r == 1 && ptr - HEADER in old(live) ==> ptr - HEADER in mem && mem[ptr - HEADER].sanity == 0
      ensures r == 1 && ptr - HEADER !in old(live) ==>
        && freeMemStart == old(freeMemStart) && free == old(free) && live == old(live)
        && mem == Unhooked(old(mem), ptr - HEADER) && forall s :: !Listed(mem, freeMemStart, s)
    {
      hide Tiled, Machine, Tagged, Ordered, Listed, Listing, Placed, Unhooked;
      if ptr == 0 {
        return 0;
      }
      var block := ptr - HEADER;
      HeaderAt(mem, block);
      if block in live {
        LiveMarked(mem, live, block);
      }
      if mem[block].sanity != block {
        return 0;
      }
      TiledOrdered(arena, free, live);
      HeadOnly(mem, freeMemStart, free, 0);
      var adjNext := freeMemStart;
      var adjPrev := 0;
      ghost var k: nat := 0;
      while adjNext != 0 && !(block <= adjNext)
        invariant mem == old(mem) && freeMemStart == old(freeMemStart) && free == old(free) && live == old(live)
        invariant k <= |free| && adjNext == AddrAt(free, k) && adjPrev == AddrAt(free, k - 1)
        invariant forall t :: 0 <= t < k ==> free[t].addr < block
        decreases |free| - k
      {
        ListEnd(free, k);
        NodeAt(mem, freeMemStart, free, k);
        adjPrev := adjNext;
        adjNext := mem[adjNext].next;
        k := k + 1;
      }
      ListEnd(free, k);
      LinkBack(block, adjNext, adjPrev, k);
      return 1;
    }

    /** Lines 147-163. */
    method LinkBack(block: nat, next: nat, prev: nat, ghost k: nat)
      requires Valid() && (block in live || Listing(free, block))
      requires k <= |free| && next == AddrAt(free, k) && prev == AddrAt(free, k - 1)
      requires (forall t :: 0 <= t < k ==> free[t].addr < block) && (k < |free| ==> block <= free[k].addr)
      modifies `mem, `freeMemStart, `free, `live
      ensures block in old(live) ==> Valid() && live == old(live) - {block}
      ensures block in old(live) ==> Released(old(free), Block(block, old(live)[block]), free)
      ensures block in old(live) ==> block in mem && mem[block].sanity == 0
      ensures block !in old(live) ==> freeMemStart == old(freeMemStart) && free == old(free) && live == old(live)
      ensures block !in old(live) ==> mem == Unhooked(old(mem), block) && forall s :: !Listed(mem, freeMemStart, s)
    {
      hide Tiled, Machine, Tagged, Ordered, Listed, Freeing, KeepsMarks, Listing, NearlyCoalesced, Joined, Released,
          Splice;
      hide Placed, Looped, AddrAt, Unhooked;
      TiledOrdered(arena, free, live);
      ghost var s := free;
      if block in live {
        s := PlaceLive(mem, freeMemStart, arena, free, live, k, block);
      } else {
        PlaceFree(mem, freeMemStart, free, k, block);
      }
      Place(block, next, prev);
      ghost var m1 := mem;
      MergeCoincident(block, s, k);
      if block in live {
        FreeingOn(old(mem), m1, mem, free, k, Block(block, live[block]));
        FreedTagged(old(mem), mem, arena, free, live, block);
        FreedMachine(old(mem), mem, free, block);
        free := Joined(s, k);
        live := live - {block};
      }
    }
  }

  // ---- The runs that test_mem tries: lines 215-541 -------------------------

  /** A granted block that is freed again leaves everything as it was. */
  method AllocateAndFree(h: Heap, size: nat) returns (ptr: nat, r: int)
    requires h.Valid() && size < WORD
    modifies h
    ensures h.Valid()
    ensures h.free == old(h.free) && h.live == old(h.live)
    ensures r == 1 <==> ptr != 0 && Need(size) > 0
  {
    r := 0;
    ptr := h.KMalloc(size);
    if ptr != 0 && Need(size) > 0 {
      Granularity(h.live, ptr - HEADER);
      ghost var without := h.free;
      r := h.KFree(ptr);
      TakeRelease(old(h.free), Block(ptr - HEADER, Need(size)), without, h.free);
      assert h.live == old(h.live);
    }
  }

  lemma Granularity(live: Live, a: nat)
    requires Separate(live) && a in live
    ensures a + HEADER < WORD && (a + HEADER) % 16 == 0
  {
    assert Proper(Block(a, live[a]));
    assert a == 16 * (a / 16);
    assert a + HEADER == 16 * (a / 16 + 1);
  }

  /** Freeing twice: the second call finds the mark gone and changes nothing. */
  method FreeTwice(h: Heap, ptr: nat) returns (r: int, again: int)
    requires h.Valid() && HEADER <= ptr < WORD && ptr % 16 == 0 && ptr - HEADER in h.live
    modifies h
    ensures h.Valid() && r == 1 && again == 0
    ensures h.live == old(h.live) - {ptr - HEADER}
    ensures Released(old(h.free), Block(ptr - HEADER, old(h.live)[ptr - HEADER]), h.free)
  {
    assert Proper(Block(ptr - HEADER, h.live[ptr - HEADER]));
    r := h.KFree(ptr);
    again := h.KFree(ptr);
  }

  /** A pointer granted for a request that wraps to no bytes: freeing it cuts the free list off after its first
      block. */
  method FreeWrapped(h: Heap) returns (ptr: nat, r: int)
    requires h.Valid() && h.free != []
    modifies h
    ensures ptr == old(h.free[0].addr) + HEADER && r == 1
    ensures h.freeMemStart == ptr - HEADER && ptr - HEADER in h.mem && h.mem[ptr - HEADER].next == ptr - HEADER
    ensures forall s :: !Listed(h.mem, h.freeMemStart, s)
  {
    GrantWraps(h.free) by { TiledOrdered(h.arena, h.free, h.live); }
    ptr := h.KMalloc(0xFFFF_FFE1);
    FirstFree(h.arena, h.free, h.live);
    r := h.KFree(ptr);
  }

  lemma FirstFree(arena: seq<Block>, free: seq<Block>, live: Live)
    requires Tiled(arena, free, live) && free != []
    ensures Proper(free[0]) && Listing(free, free[0].addr) && free[0].addr !in live
    ensures (free[0].addr + HEADER) % 16 == 0
  {
    if free[0].addr in live {
      Apart(arena, free, live, 0, free[0].addr);
    }
  }

  lemma NextBlock(h: Heap, blocks: seq<nat>, i: nat)
    requires h.Valid() && i < |blocks|
    requires forall a :: a in h.live <==> a in blocks[i..]
    requires forall i, j :: 0 <= i < j < |blocks| ==> blocks[i] != blocks[j]
    ensures blocks[i] in h.live && blocks[i] + HEADER < WORD && (blocks[i] + HEADER) % 16 == 0
    ensures forall a :: a in h.live - {blocks[i]} <==> a in blocks[i + 1..]
  {
    assert blocks[i..] == [blocks[i]] + blocks[i + 1..];
    Granularity(h.live, blocks[i]);
  }

  /** Freeing every live block, in any order, restores the list kmeminit built. */
  method FreeAll(h: Heap, blocks: seq<nat>)
    requires h.Valid()
    requires forall a :: a in h.live <==> a in blocks
    requires forall i, j :: 0 <= i < j < |blocks| ==> blocks[i] != blocks[j]
    modifies h
    ensures h.Valid() && h.live == map[] && h.free == old(h.arena)
  {
    var i := 0;
    while i < |blocks|
      invariant 0 <= i <= |blocks| && h.Valid() && h.arena == old(h.arena)
      invariant forall a :: a in h.live <==> a in blocks[i..]
    {
      NextBlock(h, blocks, i);
      hide h.Valid;
      var r := h.KFree(blocks[i] + HEADER);
      i := i + 1;
    }
    assert h.live == map[];
    NothingLive(h.arena, h.free);
  }
}
