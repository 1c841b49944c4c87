// The edits c/mem.c makes to its free list, each a splice: a run of blocks gives
// way to at most one block.  Said once for the list and once for the headers.
module FreeListSteps {
  import opened FreeList

  /** s with blocks i to j - 1 replaced by `mid`. */
  function Splice(s: seq<Block>, i: nat, j: nat, mid: seq<Block>): (r: seq<Block>)
    requires i <= j <= |s|
  {
    s[..i] + mid + s[j..]
  }

  /** The address that follows block i - 1 after the splice. */
  function FirstAfter(s: seq<Block>, j: nat, mid: seq<Block>): nat
  {
    if mid != [] then mid[0].addr else AddrAt(s, j)
  }

  /** The headers changed as a splice needs; headers that left the list may hold anything. */
  ghost predicate Relinked(m: Memory, head: nat, s: seq<Block>, i: nat, j: nat, mid: seq<Block>, m': Memory, head': nat)
    requires i <= j <= |s| && |mid| <= 1
  {
    && (forall t :: 0 <= t < |s| && (t < i || j <= t) ==> s[t].addr in m && s[t].addr in m')
    && (forall t :: 0 <= t < i - 1 || j < t < |s| ==> m'[s[t].addr] == m[s[t].addr])
    && head' == (if i == 0 then FirstAfter(s, j, mid) else head)
    && (i > 0 ==> LinkedTo(m[s[i - 1].addr], m'[s[i - 1].addr], m[s[i - 1].addr].prev,
                           if mid == [] && j == i then m[s[i - 1].addr].next else FirstAfter(s, j, mid)))
    && (mid != [] ==> mid[0].addr in m' && m'[mid[0].addr].size == mid[0].size
                      && m'[mid[0].addr].prev == AddrAt(s, i - 1) && m'[mid[0].addr].next == AddrAt(s, j))
    && (j < |s| ==> LinkedTo(m[s[j].addr], m'[s[j].addr],
                             if mid != [] then mid[0].addr else AddrAt(s, i - 1), m[s[j].addr].next))
  }

  predicate LinkedTo(h: Header, h': Header, prev: nat, next: nat)
  {
    h'.size == h.size && h'.prev == prev && h'.next == next
  }

  lemma SpliceListed(m: Memory, head: nat, s: seq<Block>, i: nat, j: nat, mid: seq<Block>, m': Memory, head': nat)
    requires i <= j <= |s| && |mid| <= 1 && Listed(m, head, s)
    requires Relinked(m, head, s, i, j, mid, m', head')
    ensures Listed(m', head', Splice(s, i, j, mid))
  {
    var r, d := Splice(s, i, j, mid), |mid| + i - j;
    forall t | 0 <= t < |r|
      ensures Node(m', r, t)
    {
      if t < i {
        assert Node(m, s, t);
      } else if t >= i + |mid| {
        assert Node(m, s, t - d);
      }
    }
  }

  /** The two links rewritten around a change: lines 88-95, 108-115 and 152-157. */
  function Hooked(m: Memory, prev: nat, next: nat, front: nat, back: nat): Memory
    requires (prev != 0 ==> prev in m) && (next != 0 ==> next in m)
  {
    var m' := if prev != 0 then m[prev := m[prev].(next := front)] else m;
    if next != 0 then m'[next := m'[next].(prev := back)] else m'
  }

  lemma HookListed(m: Memory, head: nat, s: seq<Block>, i: nat, j: nat, mid: seq<Block>, m1: Memory)
    requires i <= j <= |s| && |mid| <= 1 && (mid == [] ==> i < j)
    requires Listed(m, head, s) && Ordered(s)
    requires forall t :: 0 <= t < |s| && (t < i || j <= t) ==>
        s[t].addr in m && s[t].addr in m1 && m1[s[t].addr] == m[s[t].addr]
    requires mid != [] ==> mid[0].addr in m1 && m1[mid[0].addr] == Header(mid[0].size, AddrAt(s, i - 1), AddrAt(s,
        j), m1[mid[0].addr].sanity)
    requires mid != [] ==> forall t :: 0 <= t < |s| && (t < i || j <= t) ==> s[t].addr != mid[0].addr
    ensures var front, back := FirstAfter(s, j, mid), if mid != [] then mid[0].addr else AddrAt(s, i - 1);
            Listed(Hooked(m1, AddrAt(s, i - 1), AddrAt(s, j), front, back), if i == 0 then front else head,
                Splice(s, i, j, mid))
  {
    var front, back := FirstAfter(s, j, mid), if mid != [] then mid[0].addr else AddrAt(s, i - 1);
    var m' := Hooked(m1, AddrAt(s, i - 1), AddrAt(s, j), front, back);
    Distinct(s);
    forall t | 0 <= t < |s|
      ensures Node(m, s, t)
    {
    }
    assert Relinked(m, head, s, i, j, mid, m', if i == 0 then front else head);
    SpliceListed(m, head, s, i, j, mid, m', if i == 0 then front else head);
  }

  lemma Distinct(s: seq<Block>)
    requires Ordered(s)
    ensures forall i, j :: 0 <= i < |s| && 0 <= j < |s| && i != j ==> s[i].addr != s[j].addr
    ensures forall i :: 0 <= i < |s| ==> s[i].addr > 0
  {
    forall i, j | 0 <= i < |s| && 0 <= j < |s| && i != j
      ensures s[i].addr != s[j].addr
    {
      assert if i < j then Before(s[i], s[j]) else Before(s[j], s[i]);
    }
  }

  /** Neighbours of a splice that touch neither each other nor what is put between them. */
  predicate Fits(s: seq<Block>, i: nat, j: nat, mid: seq<Block>)
    requires i <= j <= |s| && |mid| <= 1
  {
    && (mid != [] ==> Proper(mid[0]))
    && (mid != [] && i > 0 ==> s[i - 1].addr + s[i - 1].size < mid[0].addr)
    && (mid != [] && j < |s| ==> mid[0].addr + mid[0].size < s[j].addr)
    && (mid == [] && i > 0 && j < |s| ==> s[i - 1].addr + s[i - 1].size < s[j].addr)
  }

  lemma SpliceCoalesced(s: seq<Block>, i: nat, j: nat, mid: seq<Block>)
    requires i <= j <= |s| && |mid| <= 1 && Ordered(s) && Fits(s, i, j, mid)
    requires forall t :: 0 <= t < |s| - 1 && (t < i - 1 || j <= t) ==> Gap(s, t)
    ensures Coalesced(Splice(s, i, j, mid))
  {
    var r, d := Splice(s, i, j, mid), |mid| + i - j;
    SpliceOrdered(s, i, j, mid);
    forall t | 0 <= t < |r| - 1
      ensures Gap(r, t)
    {
      if t < i - 1 {
        assert Gap(s, t);
      } else if t >= i + |mid| {
        assert Gap(s, t - d);
      }
    }
  }

  lemma SpliceOrdered(s: seq<Block>, i: nat, j: nat, mid: seq<Block>)
    requires i <= j <= |s| && |mid| <= 1 && Ordered(s)
    requires mid != [] ==> Proper(mid[0])
    requires mid != [] && i > 0 ==> Before(s[i - 1], mid[0])
    requires mid != [] && j < |s| ==> Before(mid[0], s[j])
    ensures Ordered(Splice(s, i, j, mid))
  {
    var r := Splice(s, i, j, mid);
    forall t | 0 <= t < |r|
      ensures Proper(r[t])
    {
    }
    hide Ordered, Proper, Before, Splice;
    forall t, u | 0 <= t < u < |r|
      ensures Before(r[t], r[u])
    {
      SplicePair(s, i, j, mid, t, u);
    }
    assert Ordered(r) by { OrderedIs(r); }
  }

  lemma OrderedIs(s: seq<Block>)
    requires (forall t :: 0 <= t < |s| ==> Proper(s[t])) && forall t, u :: 0 <= t < u < |s| ==> Before(s[t], s[u])
    ensures Ordered(s)
  {
  }

  lemma InOrder(s: seq<Block>, t: nat, u: nat)
    requires Ordered(s) && t < u < |s|
    ensures Before(s[t], s[u]) && Proper(s[t]) && Proper(s[u])
  {
  }

  lemma SplicePair(s: seq<Block>, i: nat, j: nat, mid: seq<Block>, t: nat, u: nat)
    requires i <= j <= |s| && |mid| <= 1 && Ordered(s)
    requires mid != [] && i > 0 ==> Before(s[i - 1], mid[0])
    requires mid != [] && j < |s| ==> Before(mid[0], s[j])
    requires t < u < |Splice(s, i, j, mid)|
    ensures Before(Splice(s, i, j, mid)[t], Splice(s, i, j, mid)[u])
  {
    hide Ordered;
    var d := |mid| + i - j;
    if t < i && u < i {
      InOrder(s, t, u);
    } else if t < i && u < i + |mid| {
      if t < i - 1 {
        InOrder(s, t, i - 1);
      }
    } else if t < i {
      InOrder(s, t, u - d);
    } else if t >= i + |mid| {
      InOrder(s, t - d, u - d);
    } else if u - d > j {
      InOrder(s, j, u - d);
    }
  }

  lemma SpliceCovers(s: seq<Block>, i: nat, j: nat, mid: seq<Block>, x: int)
    requires i <= j <= |s|
    ensures Covers(Splice(s, i, j, mid), x) <==> Covers(s[..i], x) || Covers(mid, x) || Covers(s[j..], x)
    ensures Covers(s, x) <==> Covers(s[..i], x) || Covers(s[i..j], x) || Covers(s[j..], x)
  {
    CoversPlus(s[..i], mid, x);
    CoversPlus(s[..i] + mid, s[j..], x);
    CoversPlus(s[..i], s[i..j], x);
    CoversPlus(s[..i] + s[i..j], s[j..], x);
    assert s == s[..i] + s[i..j] + s[j..];
  }

  lemma CoversOne(b: Block, x: int)
    ensures Covers([b], x) <==> Within(b, x)
  {
    assert Within([b][0], x) == Within(b, x);
  }

  // ---- Allocation ----------------------------------------------------------

  /** What is left of a block of `size` bytes after `need` bytes are taken from its front. */
  function Rest(b: Block, need: nat): (r: seq<Block>)
    requires need <= b.size
    ensures |r| <= 1
  {
    if need == b.size then [] else [Block(b.addr + need, b.size - need)]
  }

  /** Lines 84-117: taking the front of block i, all of it or not. */
  lemma CarveTaken(s: seq<Block>, i: nat, need: nat)
    requires Coalesced(s) && i < |s| && 0 < need <= s[i].size && need % 16 == 0
    ensures Taken(s, Block(s[i].addr, need), Splice(s, i, i + 1, Rest(s[i], need)))
    ensures Proper(Block(s[i].addr, need))
  {
    var b, mid := Block(s[i].addr, need), Rest(s[i], need);
    var r := Splice(s, i, i + 1, mid);
    assert i > 0 ==> Before(s[i - 1], s[i]) && Gap(s, i - 1);
    assert i + 1 < |s| ==> Before(s[i], s[i + 1]) && Gap(s, i);
    SpliceCoalesced(s, i, i + 1, mid);
    forall x
      ensures Within(b, x) ==> Covers(s, x)
      ensures Covers(r, x) <==> Covers(s, x) && !Within(b, x)
    {
      assert Within(b, x) ==> Within(s[i], x);
      SpliceCovers(s, i, i + 1, mid, x);
      assert s[i..i + 1] == [s[i]];
      CoversOne(s[i], x);
      if mid != [] {
        CoversOne(mid[0], x);
        assert mid == [mid[0]];
      }
      forall t | 0 <= t < |s| && t != i
        ensures !(Within(s[t], x) && Within(b, x))
      {
        assert t < i ==> Before(s[t], s[i]);
        assert t > i ==> Before(s[i], s[t]);
      }
    }
  }

  // ---- Release -------------------------------------------------------------

  /** The first of the blocks joined about block k, and one past the last. */
  function JoinLow(s: seq<Block>, k: nat): (i: nat)
    requires k < |s|
    ensures i <= k
  {
    if k > 0 && !Gap(s, k - 1) then k - 1 else k
  }

  function JoinHigh(s: seq<Block>, k: nat): (j: nat)
    requires k < |s|
    ensures k < j <= |s|
  {
    if k + 1 < |s| && !Gap(s, k) then k + 2 else k + 1
  }

  /** The stretch from the start of block i to the end of block j - 1. */
  ghost function Stretch(s: seq<Block>, i: nat, j: nat): Block
    requires i < j <= |s| && Ordered(s)
  {
    assert j - 1 > i ==> Before(s[i], s[j - 1]);
    Block(s[i].addr, s[j - 1].addr + s[j - 1].size - s[i].addr)
  }

  /** The list once block k has been merged with the neighbours it touches. */
  ghost function Joined(s: seq<Block>, k: nat): seq<Block>
    requires k < |s| && Ordered(s)
  {
    Splice(s, JoinLow(s, k), JoinHigh(s, k), [Stretch(s, JoinLow(s, k), JoinHigh(s, k))])
  }

  /** Block k is the only one that may touch a neighbour. */
  ghost predicate NearlyCoalesced(s: seq<Block>, k: nat)
    requires k < |s|
  {
    Ordered(s) && forall t :: 0 <= t < |s| - 1 && t != k - 1 && t != k ==> Gap(s, t)
  }

  /** Neither end of the joined stretch touches what is beyond. */
  lemma JoinEnds(s: seq<Block>, k: nat)
    requires k < |s| && NearlyCoalesced(s, k)
    ensures JoinLow(s, k) > 0 ==> Before(s[JoinLow(s, k) - 1], s[JoinLow(s, k)]) && Gap(s, JoinLow(s, k) - 1)
    ensures JoinHigh(s, k) < |s| ==> Before(s[JoinHigh(s, k) - 1], s[JoinHigh(s, k)]) && Gap(s, JoinHigh(s, k) - 1)
    ensures forall t :: 0 <= t < |s| - 1 && (t < JoinLow(s, k) - 1 || JoinHigh(s, k) <= t) ==> Gap(s, t)
  {
  }

  /** A stretch is a proper block from its first block to the end of its last. */
  lemma StretchProper(s: seq<Block>, i: nat, j: nat)
    requires i < j <= |s| && Ordered(s)
    ensures Proper(Stretch(s, i, j)) && Stretch(s, i, j).addr == s[i].addr
    ensures Stretch(s, i, j).addr + Stretch(s, i, j).size == s[j - 1].addr + s[j - 1].size
  {
    if i < j - 1 {
      InOrder(s, i, j - 1);
    }
    hide Proper;
    assert Proper(s[i]) && Proper(s[j - 1]);
    Span(s[i], s[j - 1]);
  }

  lemma Span(a: Block, b: Block)
    requires Proper(a) && Proper(b) && (a == b || Before(a, b))
    ensures b.addr + b.size >= a.addr && Proper(Block(a.addr, b.addr + b.size - a.addr))
  {
    Sixteens(b.addr, b.size, a.addr);
  }

  lemma Sixteens(a: nat, b: nat, c: nat)
    requires a % 16 == 0 && b % 16 == 0 && c % 16 == 0
    ensures (a + b - c) % 16 == 0
  {
  }

  lemma JoinedFits(s: seq<Block>, k: nat)
    requires k < |s| && NearlyCoalesced(s, k)
    ensures Fits(s, JoinLow(s, k), JoinHigh(s, k), [Stretch(s, JoinLow(s, k), JoinHigh(s, k))])
    ensures forall t :: 0 <= t < |s| - 1 && (t < JoinLow(s, k) - 1 || JoinHigh(s, k) <= t) ==> Gap(s, t)
  {
    hide Ordered, Stretch, JoinLow, JoinHigh, Proper;
    JoinEnds(s, k);
    StretchProper(s, JoinLow(s, k), JoinHigh(s, k));
  }

  lemma JoinedCoalesced(s: seq<Block>, k: nat)
    requires k < |s| && NearlyCoalesced(s, k)
    ensures Coalesced(Joined(s, k))
    ensures forall x :: Covers(Joined(s, k), x) <==> Covers(s, x)
  {
    var i, j := JoinLow(s, k), JoinHigh(s, k);
    var b := Stretch(s, i, j);
    JoinedFits(s, k);
    SpliceCoalesced(s, i, j, [b]);
    forall x
      ensures Covers(Joined(s, k), x) <==> Covers(s, x)
    {
      SpliceCovers(s, i, j, [b], x);
      CoversOne(b, x);
      StretchCovers(s, k, x);
    }
  }

  lemma StretchCovers(s: seq<Block>, k: nat, x: int)
    requires k < |s| && Ordered(s)
    ensures Covers(s[JoinLow(s, k)..JoinHigh(s, k)], x) <==> Within(Stretch(s, JoinLow(s, k), JoinHigh(s, k)), x)
  {
    var i, j := JoinLow(s, k), JoinHigh(s, k);
    var b, r := Stretch(s, i, j), s[i..j];
    if Covers(r, x) {
      var t :| 0 <= t < |r| && Within(r[t], x);
      assert r[t] == s[i + t];
      assert t > 0 ==> Before(s[i], s[i + t]);
      assert i + t < j - 1 ==> Before(s[i + t], s[j - 1]);
    }
    if Within(b, x) {
      assert r[0] == s[i] && r[k - i] == s[k] && r[|r| - 1] == s[j - 1];
      assert Within(r[0], x) || Within(r[k - i], x) || Within(r[|r| - 1], x);
    }
  }

  /** Putting block b before block k, which starts at or after it: lines 137-160. */
  lemma PlacedOrdered(s: seq<Block>, k: nat, b: Block)
    requires Coalesced(s) && k <= |s| && Proper(b)
    requires k > 0 ==> Before(s[k - 1], b)
    requires k < |s| ==> Before(b, s[k])
    ensures NearlyCoalesced(Splice(s, k, k, [b]), k)
    ensures forall x :: Covers(Splice(s, k, k, [b]), x) <==> Covers(s, x) || Within(b, x)
  {
    var r := Splice(s, k, k, [b]);
    SpliceOrdered(s, k, k, [b]);
    forall t | 0 <= t < |r| - 1 && t != k - 1 && t != k
      ensures Gap(r, t)
    {
      assert Gap(s, if t < k then t else t - 1);
    }
    forall x
      ensures Covers(r, x) <==> Covers(s, x) || Within(b, x)
    {
      SpliceCovers(s, k, k, [b], x);
      CoversOne(b, x);
      assert s[k..k] == [];
    }
  }
}
