// lib/libxc/qsort.c: an in-place three-way quicksort that grows the band of
// elements equal to the pivot from the middle outward.
//
// Memory is an array of bytes, an element a run of `es` of them.  A pointer to an
// element is its number; the byte it points to is that number times `es`.
module Qsort {
  import opened Bits

  type Compare<!T> = (T, T) -> int

  /** What qsort needs of its comparison function. */
  ghost predicate TotalPreorder<T(!new)>(cmp: Compare<T>)
  {
    && (forall x, y :: cmp(x, y) < 0 <==> cmp(y, x) > 0)
    && (forall x, y, z :: cmp(x, y) <= 0 && cmp(y, z) <= 0 ==> cmp(x, z) <= 0)
  }

  ghost predicate Sorted<T(!new)>(s: seq<T>, lo: int, hi: int, cmp: Compare<T>)
    requires 0 <= lo <= hi <= |s|
  {
    forall t, u :: lo <= t < u < hi ==> cmp(s[t], s[u]) <= 0
  }

  /** `s'` is `s` with the entries of [a, l) in some other order. */
  ghost predicate Permuted<T>(s: seq<T>, s': seq<T>, a: int, l: int)
  {
    && 0 <= a <= l <= |s| == |s'|
    && multiset(s) == multiset(s')
    && s'[..a] == s[..a] && s'[l..] == s[l..]
  }

  lemma PermutedTrans<T>(s: seq<T>, s': seq<T>, s'': seq<T>, a: int, l: int, a': int, l': int)
    requires Permuted(s, s', a, l) && Permuted(s', s'', a', l') && a <= a' && l' <= l
    ensures Permuted(s, s'', a, l)
  {
    assert s''[..a] == s''[..a'][..a] == s'[..a'][..a] == s'[..a];
    assert s''[l..] == s''[l'..][l - l'..] == s'[l'..][l - l'..] == s'[l..];
  }

  lemma PermutedSwap<T>(s: seq<T>, s': seq<T>, a: int, l: int, i: int, j: int)
    requires 0 <= a <= i < l <= |s| && a <= j < l
    requires s' == s[i := s[j]][j := s[i]]
    ensures Permuted(s, s', a, l)
  {
    SwapMultiset(s, i, j);
  }

  lemma SwapMultiset<T>(s: seq<T>, i: int, j: int)
    requires 0 <= i < |s| && 0 <= j < |s|
    ensures multiset(s[i := s[j]][j := s[i]]) == multiset(s)
  {
  }

  lemma Cancel<T(!new)>(a: multiset<T>, b: multiset<T>, b': multiset<T>, c: multiset<T>)
    requires a + b + c == a + b' + c
    ensures b == b'
  {
    forall x: T ensures b[x] == b'[x] {
      assert (a + b + c)[x] == (a + b' + c)[x];
    }
  }

  /** Each entry of the reordered stretch was an entry of the stretch. */
  lemma PermutedFrom<T(!new)>(s: seq<T>, s': seq<T>, a: int, l: int, t: int)
    requires Permuted(s, s', a, l) && a <= t < l
    ensures exists u :: a <= u < l && s[u] == s'[t]
  {
    assert s == s[..a] + s[a..l] + s[l..];
    assert s' == s'[..a] + s'[a..l] + s'[l..];
    assert multiset(s) == multiset(s[..a]) + multiset(s[a..l]) + multiset(s[l..]);
    assert multiset(s') == multiset(s'[..a]) + multiset(s'[a..l]) + multiset(s'[l..]);
    Cancel(multiset(s[..a]), multiset(s[a..l]), multiset(s'[a..l]), multiset(s[l..]));
    assert s'[a..l][t - a] in multiset(s'[a..l]);
    var v :| 0 <= v < |s[a..l]| && s[a..l][v] == s'[t];
    assert s[a + v] == s'[t];
  }

  function Swapped<T>(s: seq<T>, i: int, j: int): (r: seq<T>)
    requires 0 <= i < |s| && 0 <= j < |s|
    ensures |r| == |s|
  {
    s[i := s[j]][j := s[i]]
  }

  function Rotated<T>(s: seq<T>, i: int, j: int, k: int): (r: seq<T>)
    requires 0 <= i < |s| && 0 <= j < |s| && 0 <= k < |s|
    ensures |r| == |s|
  {
    var s1 := s[i := s[k]];
    var s2 := s1[k := s1[j]];
    s2[j := s[i]]
  }

  // ---- Elements as runs of bytes --------------------------------------------

  type Element = seq<byte>

  /** The bytes that N elements take. */
  function Size(N: nat, es: nat): nat { N * es }

  /** Memory holds N elements of `es` bytes. */
  ghost predicate Holds(mem: array<byte>, es: nat, N: nat)
  {
    es >= 1 && mem.Length == Size(N, es)
  }

  /** The address of byte b of element t. */
  function Address(t: nat, es: nat, b: nat): nat
  {
    t * es + b
  }

  /** Byte b of element t. */
  ghost function At(s: seq<byte>, es: nat, N: nat, t: nat, b: nat): byte
    requires |s| == Size(N, es) && t < N && b < es
  {
    Inside(es, N, t, b);
    s[Address(t, es, b)]
  }

  ghost function Elems(s: seq<byte>, es: nat, N: nat): (r: seq<Element>)
    requires |s| == Size(N, es)
    ensures |r| == N
  {
    seq(N, t requires 0 <= t < N => seq(es, b requires 0 <= b < es => At(s, es, N, t, b)))
  }

  lemma Inside(es: nat, N: nat, t: nat, b: nat)
    requires t < N && b < es
    ensures t * es + es <= Size(N, es) && Address(t, es, b) < Size(N, es)
  {
    MulStep(es, t, N);
    Commute(es, t, N);
  }

  /** Different bytes of different elements have different addresses. */
  lemma OneAddress(es: nat, t: nat, b: nat, t': nat, b': nat)
    requires b < es && b' < es && Address(t, es, b) == Address(t', es, b')
    ensures t == t' && b == b'
  {
    if t < t' {
      Inside(es, t', t, b);
    } else if t' < t {
      Inside(es, t, t', b');
    }
  }

  /** Storing one byte of one element changes that byte alone. */
  lemma StoreByte(s: seq<byte>, es: nat, N: nat, t: nat, b: nat, c: byte)
    requires |s| == Size(N, es) && t < N && b < es
    ensures Address(t, es, b) < |s|
    ensures forall t', b' {:trigger At(s[Address(t, es, b) := c], es, N, t', b')} :: 0 <= t' < N && 0 <= b' < es ==>
      At(s[Address(t, es, b) := c], es, N, t', b') == if t' == t && b' == b then c else At(s, es, N, t', b')
  {
    Inside(es, N, t, b);
    forall t': nat, b': nat | t' < N && b' < es
      ensures At(s[Address(t, es, b) := c], es, N, t', b') == if t' == t && b' == b then c else At(s, es, N, t', b')
    {
      Inside(es, N, t', b');
      if Address(t', es, b') == Address(t, es, b) {
        OneAddress(es, t', b', t, b);
      }
    }
  }

  /** The element's bytes as the comparison function is given them. */
  lemma ElementAt(s: seq<byte>, es: nat, N: nat, t: nat)
    requires |s| == Size(N, es) && t < N && es >= 1
    ensures t * es + es <= |s| && s[t * es..t * es + es] == Elems(s, es, N)[t]
  {
    Inside(es, N, t, 0);
    var e := Elems(s, es, N)[t];
    forall b | 0 <= b < es
      ensures s[t * es..t * es + es][b] == e[b]
    {
      assert e[b] == At(s, es, N, t, b);
    }
  }

  /** (*qscmp)(i, j) */
  method CompareAt(mem: array<byte>, es: nat, ghost N: nat, i: nat, j: nat, cmp: Compare<Element>) returns (c: int)
    requires Holds(mem, es, N) && i < N && j < N
    ensures c == cmp(Elems(mem[..], es, N)[i], Elems(mem[..], es, N)[j])
  {
    ElementAt(mem[..], es, N, i);
    ElementAt(mem[..], es, N, j);
    c := cmp(mem[i * es..i * es + es], mem[j * es..j * es + es]);
  }

  /** The elements after their first b bytes have been gathered from elsewhere. */
  ghost predicate Gathered(s0: seq<byte>, s: seq<byte>, es: nat, N: nat, src: nat -> nat, b: nat)
    requires |s0| == |s| == Size(N, es) && forall t :: 0 <= t < N ==> src(t) < N
  {
    forall t, b' {:trigger At(s, es, N, t, b')} :: 0 <= t < N && 0 <= b' < es ==>
      At(s, es, N, t, b') == At(s0, es, N, if b' < b then src(t) else t, b')
  }

  lemma GatheredStart(s: seq<byte>, es: nat, N: nat, src: nat -> nat)
    requires |s| == Size(N, es) && forall t :: 0 <= t < N ==> src(t) < N
    ensures Gathered(s, s, es, N, src, 0)
  {
  }

  lemma GatheredAll(s0: seq<byte>, s: seq<byte>, es: nat, N: nat, src: nat -> nat)
    requires |s0| == |s| == Size(N, es) && (forall t :: 0 <= t < N ==> src(t) < N) && Gathered(s0, s, es, N, src, es)
    ensures forall t: nat :: t < N ==> Elems(s, es, N)[t] == Elems(s0, es, N)[src(t)]
  {
    forall t: nat | t < N
      ensures Elems(s, es, N)[t] == Elems(s0, es, N)[src(t)]
    {
      var e, e0 := Elems(s, es, N)[t], Elems(s0, es, N)[src(t)];
      forall b | 0 <= b < es
        ensures e[b] == e0[b]
      {
        assert e[b] == At(s, es, N, t, b) == At(s0, es, N, src(t), b) == e0[b];
      }
    }
  }

  /** Where an exchange of i and j takes element t from. */
  function SwapFrom(i: nat, j: nat): (src: nat -> nat)
    ensures forall t :: src(t) == if t == j then i else if t == i then j else t
  {
    (t: nat) => if t == j then i else if t == i then j else t
  }

  /** Where qstexc takes element t from. */
  function TurnFrom(i: nat, j: nat, k: nat): (src: nat -> nat)
    ensures forall t :: src(t) == if t == j then i else if t == k then j else if t == i then k else t
  {
    (t: nat) => if t == j then i else if t == k then j else if t == i then k else t
  }

  /** The three stores of one turn of qsexc's loop. */
  lemma SwapByte(s0: seq<byte>, s: seq<byte>, es: nat, N: nat, i: nat, j: nat, b: nat)
    requires |s0| == |s| == Size(N, es) && i < N && j < N && b < es && Gathered(s0, s, es, N, SwapFrom(i, j), b)
    ensures Address(i, es, b) < |s| && Address(j, es, b) < |s|
    ensures var s1 := s[Address(i, es, b) := s[Address(j, es, b)]];
            Gathered(s0, s1[Address(j, es, b) := s[Address(i, es, b)]], es, N, SwapFrom(i, j), b + 1)
  {
    Inside(es, N, i, b);
    Inside(es, N, j, b);
    var s1 := s[Address(i, es, b) := s[Address(j, es, b)]];
    StoreByte(s, es, N, i, b, s[Address(j, es, b)]);
    StoreByte(s1, es, N, j, b, s[Address(i, es, b)]);
    assert s[Address(i, es, b)] == At(s, es, N, i, b) && s[Address(j, es, b)] == At(s, es, N, j, b);
  }

  /** The stores of one turn of qstexc's loop. */
  lemma TurnByte(s0: seq<byte>, s: seq<byte>, es: nat, N: nat, i: nat, j: nat, k: nat, b: nat)
    requires |s0| == |s| == Size(N, es) && i < N && j < N && k < N && b < es && i != j && i != k
    requires Gathered(s0, s, es, N, TurnFrom(i, j, k), b)
    ensures Address(i, es, b) < |s| && Address(j, es, b) < |s| && Address(k, es, b) < |s|
    ensures var s1 := s[Address(i, es, b) := s[Address(k, es, b)]];
            var s2 := s1[Address(k, es, b) := s1[Address(j, es, b)]];
            Gathered(s0, s2[Address(j, es, b) := s[Address(i, es, b)]], es, N, TurnFrom(i, j, k), b + 1)
  {
    Inside(es, N, i, b);
    Inside(es, N, j, b);
    Inside(es, N, k, b);
    var s1 := s[Address(i, es, b) := s[Address(k, es, b)]];
    var s2 := s1[Address(k, es, b) := s1[Address(j, es, b)]];
    var x, y, z := s[Address(i, es, b)], s[Address(k, es, b)], s1[Address(j, es, b)];
    StoreByte(s, es, N, i, b, y);
    StoreByte(s1, es, N, k, b, z);
    StoreByte(s2, es, N, j, b, x);
    assert x == At(s, es, N, i, b) && y == At(s, es, N, k, b) && z == At(s1, es, N, j, b);
    Turned(s0, s, s1, s2, s2[Address(j, es, b) := x], es, N, i, j, k, b);
  }

  lemma Turned(s0: seq<byte>, s: seq<byte>, s1: seq<byte>, s2: seq<byte>, s3: seq<byte>,
               es: nat, N: nat, i: nat, j: nat, k: nat, b: nat)
    requires |s0| == |s| == |s1| == |s2| == |s3| == Size(N, es) && i < N && j < N && k < N && b < es && i != j && i != k
    requires Gathered(s0, s, es, N, TurnFrom(i, j, k), b)
    requires forall t', b' {:trigger At(s1, es, N, t', b')} :: 0 <= t' < N && 0 <= b' < es ==>
      At(s1, es, N, t', b') == if t' == i && b' == b then At(s, es, N, k, b) else At(s, es, N, t', b')
    requires forall t', b' {:trigger At(s2, es, N, t', b')} :: 0 <= t' < N && 0 <= b' < es ==>
      At(s2, es, N, t', b') == if t' == k && b' == b then At(s1, es, N, j, b) else At(s1, es, N, t', b')
    requires forall t', b' {:trigger At(s3, es, N, t', b')} :: 0 <= t' < N && 0 <= b' < es ==>
      At(s3, es, N, t', b') == if t' == j && b' == b then At(s, es, N, i, b) else At(s2, es, N, t', b')
    ensures Gathered(s0, s3, es, N, TurnFrom(i, j, k), b + 1)
  {
    hide At;
  }

  /** qsexc: lines 88-101. */
  method Exchange(mem: array<byte>, es: nat, ghost N: nat, i: nat, j: nat)
    requires Holds(mem, es, N) && i < N && j < N
    modifies mem
    ensures Elems(mem[..], es, N) == Swapped(old(Elems(mem[..], es, N)), i, j)
  {
    hide Gathered, At, Rotated, Swapped, Address, Elems, Size, SwapFrom, TurnFrom;
    ghost var s0 := mem[..];
    GatheredStart(s0, es, N, SwapFrom(i, j));
    var b := 0;
    while b < es
      invariant b <= es && Gathered(s0, mem[..], es, N, SwapFrom(i, j), b)
    {
      SwapByte(s0, mem[..], es, N, i, j, b);
      var ri, rj := Address(i, es, b), Address(j, es, b);
      var c := mem[ri];
      mem[ri] := mem[rj];
      mem[rj] := c;
      b := b + 1;
    }
    GatheredAll(s0, mem[..], es, N, SwapFrom(i, j));
    SwapIsExchange(Elems(s0, es, N), Elems(mem[..], es, N), i, j);
  }

  lemma SwapIsExchange<T>(s: seq<T>, r: seq<T>, i: nat, j: nat)
    requires i < |s| == |r| && j < |s|
    requires forall t: nat :: t < |s| ==> SwapFrom(i, j)(t) < |s| && r[t] == s[SwapFrom(i, j)(t)]
    ensures r == Swapped(s, i, j)
  {
  }

  /** qstexc: lines 103-119; j and k need not differ. */
  method Exchange3(mem: array<byte>, es: nat, ghost N: nat, i: nat, j: nat, k: nat)
    requires Holds(mem, es, N) && i < N && j < N && k < N && i != j && i != k
    modifies mem
    ensures Elems(mem[..], es, N) == Rotated(old(Elems(mem[..], es, N)), i, j, k)
  {
    hide Gathered, At, Rotated, Swapped, Address, Elems, Size, SwapFrom, TurnFrom;
    ghost var s0 := mem[..];
    GatheredStart(s0, es, N, TurnFrom(i, j, k));
    var b := 0;
    while b < es
      invariant b <= es && Gathered(s0, mem[..], es, N, TurnFrom(i, j, k), b)
    {
      TurnByte(s0, mem[..], es, N, i, j, k, b);
      var ri, rj, rk := Address(i, es, b), Address(j, es, b), Address(k, es, b);
      var c := mem[ri];
      mem[ri] := mem[rk];
      mem[rk] := mem[rj];
      mem[rj] := c;
      b := b + 1;
    }
    GatheredAll(s0, mem[..], es, N, TurnFrom(i, j, k));
    TurnIsRotation(Elems(s0, es, N), Elems(mem[..], es, N), i, j, k);
  }

  lemma TurnIsRotation<T>(s: seq<T>, r: seq<T>, i: nat, j: nat, k: nat)
    requires i < |s| == |r| && j < |s| && k < |s| && i != j && i != k
    requires forall t: nat :: t < |s| ==> TurnFrom(i, j, k)(t) < |s| && r[t] == s[TurnFrom(i, j, k)(t)]
    ensures r == Rotated(s, i, j, k)
  {
  }

  // ---- The partition: lines 33-84 ------------------------------------------

  /** [a, i) is less than the pivot, [lp, hp] equal to it, (j, l) greater. */
  ghost predicate Banded<T(!new)>(s: seq<T>, a: int, i: int, lp: int, hp: int, j: int, l: int, pv: T, cmp: Compare<T>)
  {
    && 0 <= a <= i <= lp <= hp <= j < l <= |s|
    && (forall t :: a <= t < i ==> cmp(s[t], pv) < 0)
    && (forall t :: lp <= t <= hp ==> cmp(s[t], pv) == 0)
    && (forall t :: j < t < l ==> cmp(s[t], pv) > 0)
  }

  /** Any entry of the band compares like the pivot. */
  lemma LikePivot<T(!new)>(x: T, y: T, pv: T, cmp: Compare<T>)
    requires TotalPreorder(cmp) && cmp(y, pv) == 0
    ensures cmp(x, y) < 0 <==> cmp(x, pv) < 0
    ensures cmp(x, y) == 0 <==> cmp(x, pv) == 0
    ensures cmp(y, x) > 0 <==> cmp(x, pv) < 0
    ensures cmp(y, x) == 0 <==> cmp(x, pv) == 0
  {
  }

  /** When i is neither j nor k, a rotation is two swaps, even if j and k coincide. */
  lemma RotatedPermutes<T>(s: seq<T>, i: int, j: int, k: int, a: int, l: int)
    requires 0 <= a <= i < l <= |s| && a <= j < l && a <= k < l && i != j && i != k
    ensures Permuted(s, Rotated(s, i, j, k), a, l)
  {
    var s1 := s[i := s[k]][k := s[i]];
    PermutedSwap(s, s1, a, l, i, k);
    var s2 := s1[k := s1[j]][j := s1[k]];
    PermutedSwap(s1, s2, a, l, k, j);
    assert s2 == Rotated(s, i, j, k);
    PermutedTrans(s, s1, s2, a, l, a, l);
  }

  lemma Reflexive<T(!new)>(x: T, cmp: Compare<T>)
    requires TotalPreorder(cmp)
    ensures cmp(x, x) == 0
  {
  }

  lemma PermutedSame<T>(s: seq<T>, a: int, l: int)
    requires 0 <= a <= l <= |s|
    ensures Permuted(s, s, a, l)
  {
  }

  lemma SwapStep<T>(s0: seq<T>, s: seq<T>, a: int, l: int, i: int, j: int)
    requires Permuted(s0, s, a, l) && a <= i < l && a <= j < l
    ensures Permuted(s0, Swapped(s, i, j), a, l)
  {
    PermutedSwap(s, Swapped(s, i, j), a, l, i, j);
    PermutedTrans(s0, s, Swapped(s, i, j), a, l, a, l);
  }

  lemma RotatedStep<T>(s0: seq<T>, s: seq<T>, i: int, j: int, k: int, a: int, l: int)
    requires Permuted(s0, s, a, l) && a <= i < l && a <= j < l && a <= k < l && i != j && i != k
    ensures Permuted(s0, Rotated(s, i, j, k), a, l)
  {
    RotatedPermutes(s, i, j, k, a, l);
    PermutedTrans(s0, s, Rotated(s, i, j, k), a, l, a, l);
  }

  /** What every step of the partition keeps. */
  ghost predicate Parting<T(!new)>(s0: seq<T>, s: seq<T>, a: int, i: int, lp: int, hp: int, j: int, l: int,
                                   pv: T, cmp: Compare<T>)
  {
    Permuted(s0, s, a, l) && Banded(s, a, i, lp, hp, j, l, pv, cmp)
  }

  /** The pivot alone is the first band: lines 33-36. */
  lemma PartingStart<T(!new)>(s: seq<T>, a: int, lp: int, l: int, cmp: Compare<T>)
    requires 0 <= a <= lp < l <= |s| && TotalPreorder(cmp)
    ensures Parting(s, s, a, a, lp, lp, l - 1, l, s[lp], cmp)
  {
    Reflexive(s[lp], cmp);
    PermutedSame(s, a, l);
  }

  /** Lines 39 and 51 compare with an end of the band, which is as good as comparing with the pivot. */
  lemma CompareLow<T(!new)>(s0: seq<T>, s: seq<T>, a: int, i: int, lp: int, hp: int, j: int, l: int, pv: T,
      cmp: Compare<T>)
    requires TotalPreorder(cmp) && Parting(s0, s, a, i, lp, hp, j, l, pv, cmp)
    ensures 0 <= a <= i <= lp <= hp <= j < l <= |s|
    ensures cmp(s[i], s[lp]) < 0 <==> cmp(s[i], pv) < 0
    ensures cmp(s[i], s[lp]) == 0 <==> cmp(s[i], pv) == 0
  {
    LikePivot(s[i], s[lp], pv, cmp);
  }

  lemma CompareHigh<T(!new)>(s0: seq<T>, s: seq<T>, a: int, i: int, lp: int, hp: int, j: int, l: int, pv: T,
      cmp: Compare<T>)
    requires TotalPreorder(cmp) && Parting(s0, s, a, i, lp, hp, j, l, pv, cmp)
    ensures 0 <= a <= i <= lp <= hp <= j < l <= |s|
    ensures cmp(s[hp], s[j]) > 0 <==> cmp(s[j], pv) < 0
    ensures cmp(s[hp], s[j]) == 0 <==> cmp(s[j], pv) == 0
  {
    LikePivot(s[j], s[hp], pv, cmp);
  }

  /** Lines 43-46: a smaller entry below the band stays. */
  lemma LowLess<T(!new)>(s0: seq<T>, s: seq<T>, a: int, i: int, lp: int, hp: int, j: int, l: int, pv: T,
      cmp: Compare<T>)
    requires Parting(s0, s, a, i, lp, hp, j, l, pv, cmp) && i < lp && cmp(s[i], pv) < 0
    ensures Parting(s0, s, a, i + 1, lp, hp, j, l, pv, cmp)
  {
  }

  /** Lines 66-67: a greater entry above the band stays. */
  lemma HighGreater<T(!new)>(s0: seq<T>, s: seq<T>, a: int, i: int, lp: int, hp: int, j: int, l: int, pv: T,
      cmp: Compare<T>)
    requires Parting(s0, s, a, i, lp, hp, j, l, pv, cmp) && hp < j && cmp(s[j], pv) > 0
    ensures Parting(s0, s, a, i, lp, hp, j - 1, l, pv, cmp)
  {
  }

  /** Lines 39-42: an entry like the pivot joins the band from below. */
  lemma LowEqual<T(!new)>(s0: seq<T>, s: seq<T>, a: int, i: int, lp: int, hp: int, j: int, l: int, pv: T,
      cmp: Compare<T>)
    requires Parting(s0, s, a, i, lp, hp, j, l, pv, cmp) && i < lp && cmp(s[i], pv) == 0
    ensures Parting(s0, Swapped(s, i, lp - 1), a, i, lp - 1, hp, j, l, pv, cmp)
  {
    SwapStep(s0, s, a, l, i, lp - 1);
  }

  /** Lines 51-54: an entry like the pivot joins the band from above. */
  lemma HighEqual<T(!new)>(s0: seq<T>, s: seq<T>, a: int, i: int, lp: int, hp: int, j: int, l: int, pv: T,
      cmp: Compare<T>)
    requires Parting(s0, s, a, i, lp, hp, j, l, pv, cmp) && hp < j && cmp(s[j], pv) == 0
    ensures Parting(s0, Swapped(s, hp + 1, j), a, i, lp, hp + 1, j, l, pv, cmp)
    ensures i < lp ==> Swapped(s, hp + 1, j)[i] == s[i]
  {
    SwapStep(s0, s, a, l, hp + 1, j);
  }

  /** Lines 55-60: with nothing left below the band, the band moves up over a smaller entry. */
  lemma BandUp<T(!new)>(s0: seq<T>, s: seq<T>, a: int, lp: int, hp: int, j: int, l: int, pv: T, cmp: Compare<T>)
    requires Parting(s0, s, a, lp, lp, hp, j, l, pv, cmp) && hp < j && cmp(s[j], pv) < 0
    ensures Parting(s0, Rotated(s, lp, hp + 1, j), a, lp + 1, lp + 1, hp + 1, j, l, pv, cmp)
  {
    RotatedStep(s0, s, lp, hp + 1, j, a, l);
  }

  /** Lines 61-64: a greater entry below and a smaller one above change places. */
  lemma Across<T(!new)>(s0: seq<T>, s: seq<T>, a: int, i: int, lp: int, hp: int, j: int, l: int, pv: T, cmp: Compare<T>)
    requires Parting(s0, s, a, i, lp, hp, j, l, pv, cmp) && i < lp && hp < j
    requires cmp(s[i], pv) > 0 && cmp(s[j], pv) < 0
    ensures Parting(s0, Swapped(s, i, j), a, i + 1, lp, hp, j - 1, l, pv, cmp)
  {
    SwapStep(s0, s, a, l, i, j);
  }

  /** Lines 83-84: with nothing left above the band, the band moves down over a greater entry. */
  lemma BandDown<T(!new)>(s0: seq<T>, s: seq<T>, a: int, i: int, lp: int, hp: int, l: int, pv: T, cmp: Compare<T>)
    requires Parting(s0, s, a, i, lp, hp, hp, l, pv, cmp) && i < lp && cmp(s[i], pv) > 0
    ensures Parting(s0, Rotated(s, hp, lp - 1, i), a, i, lp - 1, hp - 1, hp - 1, l, pv, cmp)
  {
    RotatedStep(s0, s, hp, lp - 1, i, a, l);
  }

  /** Lines 49-68: scan down above the band, until an entry crosses it or none is left. */
  method ScanHigh(mem: array<byte>, es: nat, ghost N: nat, ghost s0: seq<Element>, ghost a: nat, i0: nat, lp0: nat,
      hp0: nat, j0: nat,
                           ghost l: nat, ghost pv: Element, cmp: Compare<Element>)
    returns (i: nat, lp: nat, hp: nat, j: nat, crossed: bool)
    requires Holds(mem, es, N) && TotalPreorder(cmp) && Parting(s0, Elems(mem[..], es, N), a, i0, lp0, hp0, j0, l,
        pv, cmp)
    requires i0 < lp0 ==> cmp(Elems(mem[..], es, N)[i0], pv) > 0
    modifies mem
    ensures a <= i <= lp <= hp <= j < l <= N
    ensures Parting(s0, Elems(mem[..], es, N), a, i, lp, hp, j, l, pv, cmp)
    ensures lp - i + j - hp <= lp0 - i0 + j0 - hp0
    ensures if crossed then lp - i + j - hp < lp0 - i0 + j0 - hp0 else j == hp && (i < lp ==>
        cmp(Elems(mem[..], es, N)[i], pv) > 0)
  {
    hide Parting, Permuted, Rotated, Swapped, TotalPreorder, Elems, Size;
    CompareLow(s0, Elems(mem[..], es, N), a, i0, lp0, hp0, j0, l, pv, cmp);
    i, lp, hp, j, crossed := i0, lp0, hp0, j0, false;
    while j > hp
      invariant a <= i <= lp <= hp <= j < l
      invariant Parting(s0, Elems(mem[..], es, N), a, i, lp, hp, j, l, pv, cmp)
      invariant i < lp ==> cmp(Elems(mem[..], es, N)[i], pv) > 0
      invariant lp - i + j - hp <= lp0 - i0 + j0 - hp0
      decreases lp - i + j - hp
    {
      CompareHigh(s0, Elems(mem[..], es, N), a, i, lp, hp, j, l, pv, cmp);
      var c := CompareAt(mem, es, N, hp, j, cmp);
      if c == 0 {
        HighEqual(s0, Elems(mem[..], es, N), a, i, lp, hp, j, l, pv, cmp);
        hp := hp + 1;
        Exchange(mem, es, N, hp, j);
      } else if c > 0 {
        if i == lp {
          BandUp(s0, Elems(mem[..], es, N), a, lp, hp, j, l, pv, cmp);
          hp := hp + 1;
          Exchange3(mem, es, N, i, hp, j);
          lp := lp + 1;
          i := lp;
        } else {
          Across(s0, Elems(mem[..], es, N), a, i, lp, hp, j, l, pv, cmp);
          Exchange(mem, es, N, i, j);
          j := j - 1;
          i := i + 1;
          crossed := true;
          return;
        }
      } else {
        HighGreater(s0, Elems(mem[..], es, N), a, i, lp, hp, j, l, pv, cmp);
        j := j - 1;
      }
    }
  }

  /** Lines 33-84: the partition of [a, l) about its middle entry. */
  method Partition(mem: array<byte>, es: nat, ghost N: nat, a: nat, l: nat, cmp: Compare<Element>) returns (lp: nat,
      hp: nat, ghost pv: Element)
    requires Holds(mem, es, N) && a + 2 <= l <= N && TotalPreorder(cmp)
    modifies mem
    ensures a <= lp <= hp < l
    ensures Parting(old(Elems(mem[..], es, N)), Elems(mem[..], es, N), a, lp, lp, hp, hp, l, pv, cmp)
  {
    hide Parting, Permuted, Rotated, Swapped, TotalPreorder, Elems, Size;
    lp := a + (l - a) / 2;
    hp := lp;
    var i: nat := a;
    var j: nat := l - 1;
    pv := Elems(mem[..], es, N)[lp];
    ghost var s0 := Elems(mem[..], es, N);
    PartingStart(s0, a, lp, l, cmp);
    while true
      invariant a <= i <= lp <= hp <= j < l
      invariant Parting(s0, Elems(mem[..], es, N), a, i, lp, hp, j, l, pv, cmp)
      decreases lp - i + j - hp
    {
      if i < lp {
        CompareLow(s0, Elems(mem[..], es, N), a, i, lp, hp, j, l, pv, cmp);
        var c := CompareAt(mem, es, N, i, lp, cmp);
        if c == 0 {
          LowEqual(s0, Elems(mem[..], es, N), a, i, lp, hp, j, l, pv, cmp);
          lp := lp - 1;
          Exchange(mem, es, N, i, lp);
          continue;
        }
        if c < 0 {
          LowLess(s0, Elems(mem[..], es, N), a, i, lp, hp, j, l, pv, cmp);
          i := i + 1;
          continue;
        }
      }
      var crossed: bool;
      i, lp, hp, j, crossed := ScanHigh(mem, es, N, s0, a, i, lp, hp, j, l, pv, cmp);
      if crossed {
        continue;
      }
      if i == lp {
        return;
      }
      BandDown(s0, Elems(mem[..], es, N), a, i, lp, hp, l, pv, cmp);
      lp := lp - 1;
      Exchange3(mem, es, N, j, lp, i);
      hp := hp - 1;
      j := hp;
    }
  }

  // ---- The recursion: lines 30-32 and 71-80 --------------------------------

  /** Entries of [lo, hi) are in order, but for pairs within [a, b) and pairs within [c, d). */
  ghost predicate OrderedBut<T(!new)>(s: seq<T>, lo: int, hi: int, a: int, b: int, c: int, d: int, cmp: Compare<T>)
  {
    && 0 <= lo <= a <= b <= c <= d <= hi <= |s|
    && forall t, u :: lo <= t < u < hi && !(a <= t && u < b) && !(c <= t && u < d) ==> cmp(s[t], s[u]) <= 0
  }

  /** Reordering an excepted stretch disturbs no other pair. */
  lemma ReorderLow<T(!new)>(s: seq<T>, s': seq<T>, lo: int, hi: int, a: int, b: int, c: int, d: int, cmp: Compare<T>)
    requires OrderedBut(s, lo, hi, a, b, c, d, cmp) && Permuted(s, s', a, b)
    ensures OrderedBut(s', lo, hi, a, b, c, d, cmp)
  {
    forall t, u | lo <= t < u < hi && !(a <= t && u < b) && !(c <= t && u < d)
      ensures cmp(s'[t], s'[u]) <= 0
    {
      var t', u' := Origin(s, s', a, b, t), Origin(s, s', a, b, u);
      assert cmp(s[t'], s[u']) <= 0;
    }
  }

  lemma ReorderHigh<T(!new)>(s: seq<T>, s': seq<T>, lo: int, hi: int, a: int, b: int, c: int, d: int, cmp: Compare<T>)
    requires OrderedBut(s, lo, hi, a, b, c, d, cmp) && Permuted(s, s', c, d)
    ensures OrderedBut(s', lo, hi, a, b, c, d, cmp)
  {
    forall t, u | lo <= t < u < hi && !(a <= t && u < b) && !(c <= t && u < d)
      ensures cmp(s'[t], s'[u]) <= 0
    {
      var t', u' := Origin(s, s', c, d, t), Origin(s, s', c, d, u);
      assert cmp(s[t'], s[u']) <= 0;
    }
  }

  /** A place of s that holds what place t of the reordered sequence holds. */
  ghost function Origin<T(!new)>(s: seq<T>, s': seq<T>, a: int, l: int, t: int): (u: int)
    requires Permuted(s, s', a, l) && 0 <= t < |s|
    ensures 0 <= u < |s| && s[u] == s'[t]
    ensures if a <= t < l then a <= u < l else u == t
  {
    if a <= t < l then
      PermutedFrom(s, s', a, l, t);
      var u :| a <= u < l && s[u] == s'[t];
      u
    else
      assert t < a ==> s'[..a][t] == s[..a][t];
      assert t >= l ==> s'[l..][t - l] == s[l..][t - l];
      t
  }

  /** After the partition only pairs on the same side of the band can be out of order. */
  lemma BandOrders<T(!new)>(s0: seq<T>, s: seq<T>, lo: int, hi: int, a: int, lp: int, hp: int, l: int, pv: T,
      cmp: Compare<T>)
    requires TotalPreorder(cmp) && OrderedBut(s0, lo, hi, a, l, l, l, cmp)
    requires Parting(s0, s, a, lp, lp, hp, hp, l, pv, cmp)
    ensures Permuted(s0, s, a, l)
    ensures OrderedBut(s, lo, hi, a, lp, hp + 1, l, cmp)
  {
    ReorderLow(s0, s, lo, hi, a, l, l, l, cmp);
    forall t, u | lo <= t < u < hi && !(a <= t && u < lp) && !(hp + 1 <= t && u < l)
      ensures cmp(s[t], s[u]) <= 0
    {
      if a <= t && u < l {
        assert cmp(s[t], pv) <= 0 && cmp(pv, s[u]) <= 0;
      }
    }
  }

  /** Sorting one excepted stretch leaves one. */
  lemma SortedHigh<T(!new)>(s: seq<T>, s': seq<T>, lo: int, hi: int, a: int, b: int, c: int, d: int, cmp: Compare<T>)
    requires OrderedBut(s, lo, hi, a, b, c, d, cmp) && Permuted(s, s', c, d) && Sorted(s', c, d, cmp)
    ensures OrderedBut(s', lo, hi, a, b, b, b, cmp)
  {
    hide Permuted;
    ReorderHigh(s, s', lo, hi, a, b, c, d, cmp);
  }

  lemma SortedLow<T(!new)>(s: seq<T>, s': seq<T>, lo: int, hi: int, a: int, b: int, c: int, d: int, cmp: Compare<T>)
    requires OrderedBut(s, lo, hi, a, b, c, d, cmp) && Permuted(s, s', a, b) && Sorted(s', a, b, cmp)
    ensures OrderedBut(s', lo, hi, c, d, d, d, cmp)
  {
    hide Permuted;
    ReorderLow(s, s', lo, hi, a, b, c, d, cmp);
  }

  /** At most floor(log2 n) + 1 calls are active at once when n entries are sorted. */
  ghost predicate Shallow(depth: nat, n: nat)
  {
    1 <= depth && Pow2(depth - 1) <= (if n == 0 then 1 else n)
  }

  lemma ShallowStep(depth: nat, part: nat, depth': nat, n: nat)
    requires Shallow(depth, n) && Shallow(depth', part) && 2 * part < n && 2 <= n
    ensures Shallow(depth' + 1, n)
  {
    assert Pow2(depth') == 2 * Pow2(depth' - 1);
  }

  /** qs1, lines 19-86: the smaller side is sorted by a call, the other by the loop. */
  method Qs1(mem: array<byte>, es: nat, ghost N: nat, lo: nat, hi: nat,
      cmp: Compare<Element>) returns (ghost depth: nat)
    requires Holds(mem, es, N) && lo <= hi <= N && TotalPreorder(cmp)
    modifies mem
    ensures Permuted(old(Elems(mem[..], es, N)), Elems(mem[..], es, N), lo, hi)
    ensures Sorted(Elems(mem[..], es, N), lo, hi, cmp)
    ensures Shallow(depth, hi - lo)
    decreases hi - lo
  {
    hide Permuted, TotalPreorder, Pow2, OrderedBut, Sorted, Shallow, Parting, Elems, Size;
    var a: nat := lo;
    var l: nat := hi;
    depth := 1;
    ghost var s0 := Elems(mem[..], es, N);
    PermutedSame(s0, lo, hi);
    ShallowBase(hi - lo);
    OrderedStart(s0, lo, hi, cmp);
    while l - a > 1
      invariant lo <= a <= l <= hi
      invariant Permuted(s0, Elems(mem[..], es, N), lo, hi)
      invariant OrderedBut(Elems(mem[..], es, N), lo, hi, a, l, l, l, cmp)
      invariant Shallow(depth, hi - lo)
      decreases l - a
    {
      ghost var s1 := Elems(mem[..], es, N);
      ghost var d: nat;
      var lp: nat, hp: nat, pv := Partition(mem, es, N, a, l, cmp);
      ghost var s2 := Elems(mem[..], es, N);
      BandOrders(s1, s2, lo, hi, a, lp, hp, l, pv, cmp);
      PermutedTrans(s0, s1, s2, lo, hi, a, l);
      if lp - a >= l - hp {
        d := Qs1(mem, es, N, hp + 1, l, cmp);
        SortedHigh(s2, Elems(mem[..], es, N), lo, hi, a, lp, hp + 1, l, cmp);
        PermutedTrans(s0, s2, Elems(mem[..], es, N), lo, hi, hp + 1, l);
        ShallowStep(depth, l - hp - 1, d, hi - lo);
        l := lp;
      } else {
        d := Qs1(mem, es, N, a, lp, cmp);
        SortedLow(s2, Elems(mem[..], es, N), lo, hi, a, lp, hp + 1, l, cmp);
        PermutedTrans(s0, s2, Elems(mem[..], es, N), lo, hi, a, lp);
        ShallowStep(depth, lp - a, d, hi - lo);
        a := hp + 1;
      }
      depth := if d + 1 > depth then d + 1 else depth;
    }
    OrderedEnd(Elems(mem[..], es, N), lo, hi, a, l, cmp);
  }

  lemma OrderedStart<T(!new)>(s: seq<T>, lo: int, hi: int, cmp: Compare<T>)
    requires 0 <= lo <= hi <= |s|
    ensures OrderedBut(s, lo, hi, lo, hi, hi, hi, cmp)
  {
  }

  lemma OrderedEnd<T(!new)>(s: seq<T>, lo: int, hi: int, a: int, l: int, cmp: Compare<T>)
    requires OrderedBut(s, lo, hi, a, l, l, l, cmp) && l - a <= 1
    ensures Sorted(s, lo, hi, cmp)
  {
  }

  lemma ShallowBase(n: nat)
    ensures Shallow(1, n)
  {
  }

  /** qsort, lines 14-17, for the first n entries. */
  method Sort(mem: array<byte>, es: nat, ghost N: nat, n: nat, cmp: Compare<Element>) returns (ghost depth: nat)
    requires Holds(mem, es, N) && n <= N && TotalPreorder(cmp)
    modifies mem
    ensures Permuted(old(Elems(mem[..], es, N)), Elems(mem[..], es, N), 0, n)
    ensures Sorted(Elems(mem[..], es, N), 0, n, cmp)
    ensures Shallow(depth, n)
  {
    depth := Qs1(mem, es, N, 0, n, cmp);
  }
}
