// The decoder of boot/zBoot/inflate.c:328-810, proved against InflateSpec.
module Decoder {
  import opened Bits
  import opened Canonical
  import opened HuftTables
  import opened Huffman
  import opened HuffmanDecode
  import opened BitReader
  import opened Window
  import opened Crc
  import Spec = InflateSpec

  /**
   * How a call ends: with a return code, stopped by error(), out of input (which
   * also stops the machine), or having read memory that was never written.
   */
  datatype Outcome = Return(code: nat) | Stopped | OutOfInput | ReadUnset

  /**
   * The outcome agrees with the reference result.  The code may want up to 16
   * bits at once, so it can run out of input before the reference does, but
   * never while 16 bits or more follow the stream.
   */
  ghost predicate Agrees<T>(r: Spec.Result<T>, o: Outcome, out: T, rest: seq<bool>)
  {
    r.Undefined? ||
    match o
    case Return(code) => if code == 0 then r == Spec.Ok(out, rest) else r == Spec.Err(code)
    case Stopped => r == Spec.Halt
    case OutOfInput => r.Ok? ==> |r.rest| < 16
    case ReadUnset => false
  }

  class Inflater {
    const reader: BitReader
    const window: SlidingWindow

    constructor (input: seq<byte>)
      ensures Valid() && fresh(reader) && fresh(window) && fresh(window.slide)
      ensures fresh(window.register) && fresh(window.register.tab)
      ensures reader.input == input && reader.Rest() == BytesBits(input) && window.Out() == []
    {
      reader := new BitReader(input);
      window := new SlidingWindow();
    }

    ghost predicate Valid()
      reads this, reader, window, window.slide, window.register, window.register.tab
    {
      reader.Valid() && window.Valid()
    }

    /** The tables are none of the decoder's own objects. */
    ghost predicate Apart(F: Forest)
    {
      reader !in Tables(F) && window !in Tables(F) && window.slide !in Tables(F) && window.register !in Tables(F)
    }

    /** Lines 353-362 for a literal or length, 384-393 for a distance. */
    method DecodeSymbol(t0: array?<Huft>, m: nat, ghost lens: seq<nat>, ghost s0: nat, ghost d: seq<nat>,
                        ghost e: seq<nat>, ghost P: Plan, ghost F: Forest)
      returns (f: Fetched, ghost sym: nat)
      requires Valid() && TreeFor(lens, s0, d, e, P, F, t0, m)
      modifies reader
      ensures Valid()
      ensures |reader.Rest()| <= |old(reader.Rest())|
      ensures FetchedRight(lens, s0, d, e, old(reader.Rest()), reader.Rest(), f, sym)
    {
      hide Pow2, Lsb, ToBits, Pos, First, Offset, CountOf, LowBits, BytesBits, Spec.ReadSymbol;
      ghost var R := reader.Rest();
      sym := 0;
      if t0 == null {
        EmptyTree(lens, R);
        return Unwritten, 0;
      }
      PlanBits(P, lens, s0, d, e);
      var ok, t := RootSlot(t0, m, P, F);
      if !ok {
        return NoInput, 0;
      }
      ghost var T := 0;
      while t.Huft? && t.e > 16
        invariant Valid() && Synced(F) && AtSlot(P, F, R, reader.Rest(), reader.bk, T, t)
        invariant |reader.Rest()| <= |R|
        decreases |F.node| - T
      {
        if t.e == 99 {
          sym := LeafRight(P, F, lens, s0, d, e, T, SlotPath(F, R, T), R, t);
          return Invalid, sym;
        }
        ok, t, T := FollowLink(t, P, F, R, T);
        if !ok {
          return NoInput, 0;
        }
      }
      sym := LeafRight(P, F, lens, s0, d, e, T, SlotPath(F, R, T), R, t);
      if t.Undef? {
        return Unwritten, sym;
      }
      reader.DumpBits(t.b);
      f := Entry(t.e, t.n);
    }

    /** Lines 353-354: the slot of the root table for the next bits. */
    method RootSlot(t0: array<Huft>, m: nat, ghost P: Plan, ghost F: Forest) returns (ok: bool, t: Huft)
      requires Valid() && Tree(P, F, t0, m) && ValidPlan(P) && P.l <= 16 && P.g <= 16
      modifies reader
      ensures Valid() && reader.Rest() == old(reader.Rest())
      ensures !ok ==> |reader.Rest()| < 16
      ensures ok ==> AtSlot(P, F, reader.Rest(), reader.Rest(), reader.bk, 0, t)
    {
      hide Pow2, Lsb, ToBits, Pos, First, Offset, CountOf, LowBits, BytesBits, SlotGood;
      t := Undef;
      ok := reader.NeedBits(m);
      if ok {
        ghost var R := reader.Rest();
        SlotAt(P, F, 0, R);
        assert R[0..] == R && R[0..m] == R[..m];
        t := t0[reader.Peek(m)];
      }
    }

    /** Lines 358-361: on to the table that a link leads to. */
    method FollowLink(t: Huft, ghost P: Plan, ghost F: Forest, ghost R: seq<bool>, ghost T: nat)
      returns (ok: bool, t': Huft, ghost T': nat)
      requires Valid() && Synced(F) && ValidPlan(P) && Shape(P, F) && Narrow(P, F.node) && Done(P, F, Pow2(P.g))
      requires AtSlot(P, F, R, reader.Rest(), reader.bk, T, t)
      requires t.Huft? && t.e > 16 && t.e != 99
      modifies reader
      ensures Valid()
      ensures |reader.Rest()| <= |old(reader.Rest())|
      ensures !ok ==> |R| < 16
      ensures ok ==> T < T' && AtSlot(P, F, R, reader.Rest(), reader.bk, T', t')
    {
      hide Pow2, Lsb, ToBits, Pos, First, Offset, LowBits, BytesBits, SlotGood, LinkSlot, NodeOK;
      T' := LinkTarget(P, F, R, reader.Rest(), reader.bk, T, t);
      hide AtSlot;
      reader.DumpBits(t.b);
      var bits := t.e - 16;
      t' := t;
      ok := reader.NeedBits(bits);
      if ok {
        ghost var w := |F.node[T'].p|;
        assert R[w..][..bits] == R[w..w + bits];
        SlotAt(P, F, T', R);
        t' := t.t[reader.Peek(bits)];
        assert t' == F.tabs[T'][..][Lsb(R[w..w + bits])];
        SlotHere(P, F, R, reader.Rest(), reader.bk, T', t');
      }
    }

    /** Lines 378-418, for the length symbol 257 + i; Return(0) means the block goes on. */
    method InflateMatch(e: nat, n: nat, td: array?<Huft>, bd: nat, ghost i: nat, ghost lit: seq<nat>,
                        ghost dist: seq<nat>, ghost P: Plan, ghost F: Forest)
      returns (o: Outcome)
      requires Valid() && Spec.GoodTrees(lit, dist)
      requires TreeFor(dist, 0, Spec.CPDIST, Spec.CPDEXT, P, F, td, bd)
      requires i < 29 && e == Spec.CPLEXT[i] && n == Spec.CPLENS[i]
      modifies reader, window, window.slide, window.register
      ensures Valid()
      ensures |reader.Rest()| <= |old(reader.Rest())|
      ensures Proceeds(Spec.InflateMatch(lit, dist, old(window.Out()), i, old(reader.Rest())),
                       o, lit, dist, window.Out(), reader.Rest(), |old(reader.Rest())|)
    {
      hide Pow2, Lsb, ToBits, LowBits, BytesBits, Decode, CountOf, Spec.CopyMatch, Feed, Steps;
      hide Spec.ReadSymbol, TreeFor, SlidingWindow.Consistent, FetchedRight, Proceeds;
      hide Spec.InflateCodes, Spec.InflateMatch, Spec.InflateDistance, Spec.InflateCopy;
      ghost var r := Spec.InflateMatch(lit, dist, window.Out(), i, reader.Rest());
      assert Apart(F);
      LengthRange(i);
      ghost var bits := reader.Rest();
      MatchStep(lit, dist, window.Out(), i, bits);
      var ok := reader.NeedBits(e);
      if !ok {
        RanOut(r, lit, dist, window.Out(), reader.Rest(), |bits|);
        return OutOfInput;
      }
      var len := n + reader.Peek(e);
      reader.DumpBits(e);
      o := InflateDistance(len, td, bd, lit, dist, P, F);
      ProceedsBound(r, o, lit, dist, window.Out(), reader.Rest(), |bits| - e, |bits|);
    }

    /** Lines 383-418. */
    method InflateDistance(len: nat, td: array?<Huft>, bd: nat, ghost lit: seq<nat>, ghost dist: seq<nat>,
                           ghost P: Plan, ghost F: Forest)
      returns (o: Outcome)
      requires Valid() && Spec.GoodTrees(lit, dist) && len >= 1
      requires TreeFor(dist, 0, Spec.CPDIST, Spec.CPDEXT, P, F, td, bd)
      modifies reader, window, window.slide, window.register
      ensures Valid()
      ensures |reader.Rest()| <= |old(reader.Rest())|
      ensures Proceeds(Spec.InflateDistance(lit, dist, old(window.Out()), len, old(reader.Rest())),
                       o, lit, dist, window.Out(), reader.Rest(), |old(reader.Rest())|)
    {
      hide Pow2, Lsb, ToBits, LowBits, BytesBits, Decode, CountOf, Spec.CopyMatch, Feed, Steps;
      hide Spec.ReadSymbol, TreeFor, SlidingWindow.Consistent, FetchedRight, Proceeds;
      hide Spec.InflateCodes, Spec.InflateMatch, Spec.InflateDistance, Spec.InflateCopy, Powers;
      ghost var out, bits := window.Out(), reader.Rest();
      ghost var r := Spec.InflateDistance(lit, dist, out, len, bits);
      var f, ds := DecodeSymbol(td, bd, dist, 0, Spec.CPDIST, Spec.CPDEXT, P, F);
      DistanceStep(lit, dist, out, len, bits, reader.Rest(), f, ds);
      match f
      case NoInput => return OutOfInput;
      case Unwritten => return ReadUnset;
      case Invalid => return Return(1);
      case Entry(e, n) =>
        ghost var bits' := reader.Rest();
        o := CopyBack(len, e, n, lit, dist, ds);
        ProceedsBound(r, o, lit, dist, window.Out(), reader.Rest(), |bits'|, |bits|);
    }

    /** Lines 394-418: the distance's extra bits and the copy. */
    method CopyBack(len: nat, e: nat, n: nat, ghost lit: seq<nat>, ghost dist: seq<nat>, ghost ds: nat)
      returns (o: Outcome)
      requires Valid() && Spec.GoodTrees(lit, dist) && len >= 1
      requires ds < 30 && e == Spec.CPDEXT[ds] && n == Spec.CPDIST[ds]
      modifies reader, window, window.slide, window.register
      ensures Valid()
      ensures |reader.Rest()| <= |old(reader.Rest())|
      ensures Proceeds(Spec.InflateCopy(lit, dist, old(window.Out()), len, ds, old(reader.Rest())),
                       o, lit, dist, window.Out(), reader.Rest(), |old(reader.Rest())|)
    {
      hide Pow2, Lsb, ToBits, LowBits, BytesBits, Spec.CopyMatch, Feed, Steps, Powers;
      hide SlidingWindow.Consistent, Proceeds, Spec.InflateCodes, Spec.InflateCopy;
      ghost var out, bits := window.Out(), reader.Rest();
      ghost var r := Spec.InflateCopy(lit, dist, out, len, ds, bits);
      CopyStep(lit, dist, out, len, ds, bits);
      var ok := reader.NeedBits(e);
      if !ok {
        RanOut(r, lit, dist, out, bits, |bits|);
        return OutOfInput;
      }
      var d := n + reader.Peek(e);
      PowerTable(e);
      reader.DumpBits(e);
      window.CopyMatch(len, d);
      o := Return(0);
      CopyDone(r, lit, dist, out, len, d, window.Out(), reader.Rest(), |bits|);
    }

    /** One turn of the loop at lines 351-420: a symbol and what it stands for. */
    method InflateOne(tl: array?<Huft>, td: array?<Huft>, bl: nat, bd: nat,
                      ghost lit: seq<nat>, ghost dist: seq<nat>,
                      ghost PL: Plan, ghost FL: Forest, ghost PD: Plan, ghost FD: Forest)
      returns (done: bool, o: Outcome)
      requires Valid() && Spec.GoodTrees(lit, dist)
      requires TreeFor(lit, 257, Spec.CPLENS, Spec.CPLEXT, PL, FL, tl, bl)
      requires TreeFor(dist, 0, Spec.CPDIST, Spec.CPDEXT, PD, FD, td, bd)
      modifies reader, window, window.slide, window.register
      ensures Valid()
      ensures |reader.Rest()| <= |old(reader.Rest())|
      ensures var r := Spec.InflateCodes(lit, dist, old(window.Out()), old(reader.Rest()));
        if done then Agrees(r, o, window.Out(), reader.Rest())
        else |reader.Rest()| < |old(reader.Rest())| &&
             (r.Undefined? || r == Spec.InflateCodes(lit, dist, window.Out(), reader.Rest()))
    {
      hide Pow2, Lsb, ToBits, LowBits, BytesBits, Decode, CountOf, Spec.CopyMatch, Feed, Steps;
      hide Spec.ReadSymbol, TreeFor, SlidingWindow.Consistent, FetchedRight, Spec.InflateCodes, Spec.InflateMatch;
      hide Agrees, Proceeds;
      ghost var out, bits := window.Out(), reader.Rest();
      ghost var r := Spec.InflateCodes(lit, dist, out, bits);
      assert Apart(FD);
      done, o := true, ReadUnset;
      var f, sym := DecodeSymbol(tl, bl, lit, 257, Spec.CPLENS, Spec.CPLEXT, PL, FL);
      CodesStep(lit, dist, out, bits, reader.Rest(), f, sym);
      match f
      case NoInput => o := OutOfInput;
      case Unwritten =>
      case Invalid => o := Return(1);
      case Entry(e, n) =>
        if e == 16 {
          window.PutByte(n);
          done := false;
        } else if e == 15 {
          o := Return(0);
          EndOfBlock(r, out, reader.Rest());
        } else {
          ghost var bound := |reader.Rest()|;
          o := InflateMatch(e, n, td, bd, sym - 257, lit, dist, PD, FD);
          AfterMatch(r, o, lit, dist, window.Out(), reader.Rest(), bound);
          done := o != Return(0);
        }
    }

    /** Lines 328-430. */
    method InflateCodes(tl: array?<Huft>, td: array?<Huft>, bl: nat, bd: nat,
                        ghost lit: seq<nat>, ghost dist: seq<nat>,
                        ghost PL: Plan, ghost FL: Forest, ghost PD: Plan, ghost FD: Forest)
      returns (o: Outcome)
      requires Valid() && Spec.GoodTrees(lit, dist)
      requires TreeFor(lit, 257, Spec.CPLENS, Spec.CPLEXT, PL, FL, tl, bl)
      requires TreeFor(dist, 0, Spec.CPDIST, Spec.CPDEXT, PD, FD, td, bd)
      modifies reader, window, window.slide, window.register
      ensures Valid()
      ensures |reader.Rest()| <= |old(reader.Rest())|
      ensures Agrees(Spec.InflateCodes(lit, dist, old(window.Out()), old(reader.Rest())),
                     o, window.Out(), reader.Rest())
    {
      hide Pow2, Lsb, ToBits, LowBits, BytesBits, Decode, CountOf, Spec.CopyMatch, Feed, Steps;
      hide Spec.ReadSymbol, TreeFor, SlidingWindow.Consistent, Spec.InflateCodes;
      ghost var r := Spec.InflateCodes(lit, dist, window.Out(), reader.Rest());
      assert Apart(FL) && Apart(FD);
      while true
        invariant Valid() && |reader.Rest()| <= |old(reader.Rest())|
        invariant TreeFor(lit, 257, Spec.CPLENS, Spec.CPLEXT, PL, FL, tl, bl)
        invariant TreeFor(dist, 0, Spec.CPDIST, Spec.CPDEXT, PD, FD, td, bd)
        invariant r.Undefined? || r == Spec.InflateCodes(lit, dist, window.Out(), reader.Rest())
        decreases |reader.Rest()|
      {
        var done;
        done, o := InflateOne(tl, td, bl, bd, lit, dist, PL, FL, PD, FD);
        if done {
          return;
        }
      }
    }
  }

  // ---- One step of the reference decoder ------------------------------------------

  /** After a match: either the block goes on from here, or the call has ended. */
  ghost predicate Proceeds(r: Spec.Result<seq<byte>>, o: Outcome, lit: seq<nat>, dist: seq<nat>, out: seq<byte>,
                           rest: seq<bool>, bound: nat)
    requires Spec.GoodTrees(lit, dist)
  {
    if o == Return(0) then
      |rest| <= bound && (r.Undefined? || r == Spec.InflateCodes(lit, dist, out, rest))
    else Agrees(r, o, out, rest)
  }

  lemma EndOfBlock(r: Spec.Result<seq<byte>>, out: seq<byte>, rest: seq<bool>)
    requires r == Spec.Ok(out, rest)
    ensures Agrees(r, Return(0), out, rest)
  {
  }

  lemma AfterMatch(r: Spec.Result<seq<byte>>, o: Outcome, lit: seq<nat>, dist: seq<nat>,
                   out: seq<byte>, rest: seq<bool>, bound: nat)
    requires Spec.GoodTrees(lit, dist) && Proceeds(r, o, lit, dist, out, rest, bound)
    ensures o == Return(0) ==>
      |rest| <= bound && (r.Undefined? || r == Spec.InflateCodes(lit, dist, out, rest))
    ensures o != Return(0) ==> Agrees(r, o, out, rest)
  {
  }

  lemma ProceedsBound(r: Spec.Result<seq<byte>>, o: Outcome, lit: seq<nat>, dist: seq<nat>, out: seq<byte>,
                      rest: seq<bool>, bound: nat, bound': nat)
    requires Spec.GoodTrees(lit, dist) && bound <= bound' && Proceeds(r, o, lit, dist, out, rest, bound)
    ensures Proceeds(r, o, lit, dist, out, rest, bound')
  {
  }

  lemma RanOut(r: Spec.Result<seq<byte>>, lit: seq<nat>, dist: seq<nat>, out: seq<byte>,
               rest: seq<bool>, bound: nat)
    requires Spec.GoodTrees(lit, dist) && (r.Ok? ==> |r.rest| < 16)
    ensures Proceeds(r, OutOfInput, lit, dist, out, rest, bound)
  {
  }

  lemma MatchStep(lit: seq<nat>, dist: seq<nat>, out: seq<byte>, i: nat, bits: seq<bool>)
    requires Spec.GoodTrees(lit, dist) && i < 29
    ensures var r, e := Spec.InflateMatch(lit, dist, out, i, bits), Spec.CPLEXT[i];
      && (r.Ok? ==> |r.rest| <= |bits|)
      && (e <= |bits| ==>
            r == Spec.InflateDistance(lit, dist, out, Spec.CPLENS[i] + Lsb(bits[..e]), bits[e..]))
  {
    hide Spec.InflateDistance;
  }

  lemma DistanceStep(lit: seq<nat>, dist: seq<nat>, out: seq<byte>, len: nat, bits: seq<bool>,
                     rest: seq<bool>, f: Fetched, ds: nat)
    requires Spec.GoodTrees(lit, dist)
    requires ListsCover(|dist|, 0, Spec.CPDIST, Spec.CPDEXT)
    requires FetchedRight(dist, 0, Spec.CPDIST, Spec.CPDEXT, bits, rest, f, ds)
    ensures var r := Spec.InflateDistance(lit, dist, out, len, bits);
      && (f.NoInput? ==> Proceeds(r, OutOfInput, lit, dist, out, rest, |bits|))
      && (f.Unwritten? ==> Proceeds(r, ReadUnset, lit, dist, out, rest, |bits|))
      && (f.Invalid? ==> Proceeds(r, Return(1), lit, dist, out, rest, |bits|))
      && (f.Entry? ==> ds < 30 && f.e == Spec.CPDEXT[ds] && f.n == Spec.CPDIST[ds] && |rest| < |bits|)
      && (f.Entry? ==> r == Spec.InflateCopy(lit, dist, out, len, ds, rest))
  {
    hide Spec.InflateCopy, Spec.ReadSymbol;
    DistanceNeverInvalid(ds);
    if f.Entry? {
      DistanceRange(ds);
    }
  }

  lemma CopyStep(lit: seq<nat>, dist: seq<nat>, out: seq<byte>, len: nat, ds: nat, bits: seq<bool>)
    requires Spec.GoodTrees(lit, dist) && ds < 30
    ensures var r, e := Spec.InflateCopy(lit, dist, out, len, ds, bits), Spec.CPDEXT[ds];
      && (r.Ok? ==> |r.rest| <= |bits|)
      && e <= 13 && 1 <= Spec.CPDIST[ds] && Spec.CPDIST[ds] + Powers(e) <= WSIZE + 1
      && (e <= |bits| ==>
            var d := Spec.CPDIST[ds] + Lsb(bits[..e]);
            if d > |out| then r.Undefined?
            else r == Spec.InflateCodes(lit, dist, Spec.CopyMatch(out, len, d), bits[e..]))
  {
    hide Spec.InflateCodes, Spec.CopyMatch;
    DistanceRange(ds);
  }

  lemma CopyDone(r: Spec.Result<seq<byte>>, lit: seq<nat>, dist: seq<nat>, out: seq<byte>, len: nat, d: nat,
                 out': seq<byte>, rest: seq<bool>, bound: nat)
    requires Spec.GoodTrees(lit, dist) && 1 <= d && |rest| <= bound
    requires if d > |out| then r.Undefined?
             else out' == Spec.CopyMatch(out, len, d) &&
                  r == Spec.InflateCodes(lit, dist, Spec.CopyMatch(out, len, d), rest)
    ensures Proceeds(r, Return(0), lit, dist, out', rest, bound)
  {
  }

  lemma CodesStep(lit: seq<nat>, dist: seq<nat>, out: seq<byte>, bits: seq<bool>,
                  rest: seq<bool>, f: Fetched, sym: nat)
    requires Spec.GoodTrees(lit, dist) && ListsCover(|lit|, 257, Spec.CPLENS, Spec.CPLEXT)
    requires FetchedRight(lit, 257, Spec.CPLENS, Spec.CPLEXT, bits, rest, f, sym)
    ensures var r := Spec.InflateCodes(lit, dist, out, bits);
      && (f.NoInput? ==> Agrees(r, OutOfInput, out, rest))
      && (f.Unwritten? ==> Agrees(r, ReadUnset, out, rest))
      && (f.Invalid? ==> Agrees(r, Return(1), out, rest))
      && (f.Entry? ==> |rest| < |bits|)
      && (f.Entry? && f.e == 16 ==> f.n < 256 && r == Spec.InflateCodes(lit, dist, out + [f.n], rest))
      && (f.Entry? && f.e == 15 ==> r == Spec.Ok(out, rest))
      && (f.Entry? && f.e != 16 && f.e != 15 ==>
            257 <= sym < 286 && f.e == Spec.CPLEXT[sym - 257] && f.n == Spec.CPLENS[sym - 257] &&
            r == Spec.InflateMatch(lit, dist, out, sym - 257, rest))
  {
    hide Spec.InflateMatch, Spec.ReadSymbol;
    LiteralInvalid(sym);
    if f.Entry? {
      LiteralEntry(sym);
    }
  }

  // ---- The tables of constants --------------------------------------------------

  lemma LengthRange(i: nat)
    requires i < 29
    ensures Spec.CPLEXT[i] <= 5 && Spec.CPLENS[i] >= 3
  {
  }

  lemma LiteralInvalid(sym: nat)
    ensures sym < 288 ==> (SymbolEntry(sym, 257, Spec.CPLENS, Spec.CPLEXT).e == 99 <==> sym >= 286)
  {
  }

  lemma LiteralEntry(sym: nat)
    requires sym < 288
    ensures var r := SymbolEntry(sym, 257, Spec.CPLENS, Spec.CPLEXT);
      && (sym < 256 <==> r.e == 16) && (sym == 256 <==> r.e == 15)
      && (sym < 256 ==> r.n == sym)
      && (257 <= sym && r.e != 99 ==> sym < 286 && r.e == Spec.CPLEXT[sym - 257] && r.n == Spec.CPLENS[sym - 257])
  {
  }

  lemma DistanceNeverInvalid(ds: nat)
    ensures ds < 30 ==> SymbolEntry(ds, 0, Spec.CPDIST, Spec.CPDEXT).e != 99
  {
  }

  lemma DistanceRange(ds: nat)
    requires ds < 30
    ensures SymbolEntry(ds, 0, Spec.CPDIST, Spec.CPDEXT) == Huft(Spec.CPDEXT[ds], 0, Spec.CPDIST[ds], null)
    ensures Spec.CPDEXT[ds] <= 13 && 1 <= Spec.CPDIST[ds]
    ensures Spec.CPDIST[ds] + Powers(Spec.CPDEXT[ds]) <= WSIZE + 1
  {
  }

  function Powers(n: nat): nat
    requires n <= 13
  {
    [1, 2, 4, 8, 16, 32, 64, 128, 256, 512, 1024, 2048, 4096, 8192][n]
  }

  lemma PowerTable(n: nat)
    requires n <= 13
    ensures Pow2(n) == Powers(n)
  {
    if n > 0 {
      PowerTable(n - 1);
    }
  }

  /** The bits that led to the slot in hand: those of its table and its index. */
  ghost function SlotPath(F: Forest, R: seq<bool>, T: nat): seq<bool>
    requires T < |F.node| && |F.node[T].p| + F.node[T].nb <= |R|
  {
    R[..|F.node[T].p| + F.node[T].nb]
  }

  /** `t` is the slot of table `T` for the stream `R`; the bits before that table are consumed. */
  ghost predicate AtSlot(P: Plan, F: Forest, R: seq<bool>, rest: seq<bool>, bk: nat, T: nat, t: Huft)
  {
    && T < |F.node| == |F.tabs| && |F.node[T].p| + F.node[T].nb <= |R|
    && F.node[T].p <= R && rest == R[|F.node[T].p|..] && F.node[T].nb <= bk
    && SlotGood(P, F, T, SlotPath(F, R, T), t)
  }

  /** Where a link leads: to the table for the bits read so far. */
  lemma LinkTarget(P: Plan, F: Forest, R: seq<bool>, rest: seq<bool>, bk: nat, T: nat, t: Huft) returns (T': nat)
    requires ValidPlan(P) && Shape(P, F) && Narrow(P, F.node)
    requires AtSlot(P, F, R, rest, bk, T, t) && t.Huft? && t.e > 16 && t.e != 99
    ensures T < T' < |F.node| == |F.tabs| && t.t == F.tabs[T']
    ensures 17 <= t.e <= 32 && F.node[T'].nb == t.e - 16 && F.node[T'].p <= R
    ensures t.b <= bk && t.b <= |rest| && rest[t.b..] == R[|F.node[T'].p|..]
  {
    hide Pow2, Lsb, ToBits, Pos, First, Offset;
    var S := SlotPath(F, R, T);
    SlotForm(P, F, T, S, t);
    T' :| LinkSlot(F, T, S, t, T');
    assert NodeOK(P, F.node[T'], |F.mem[T']|);
  }

  lemma SlotHere(P: Plan, F: Forest, R: seq<bool>, rest: seq<bool>, bk: nat, T: nat, t: Huft)
    requires T < |F.node| == |F.tabs| && F.node[T].p <= R && rest == R[|F.node[T].p|..]
    requires F.node[T].nb <= bk && F.node[T].nb <= |rest|
    requires SlotGood(P, F, T, R[..|F.node[T].p| + F.node[T].nb], t)
    ensures AtSlot(P, F, R, rest, bk, T, t)
  {
    hide SlotGood;
  }

  lemma EmptyTree(lens: seq<nat>, R: seq<bool>)
    requires ValidLengths(lens) && |lens| >= 1 && Longest(lens) == 0
    ensures Spec.ReadSymbol(lens, R) == Spec.Undefined
  {
    CountedZero(lens);
  }

  lemma PlanBits(P: Plan, lens: seq<nat>, s0: nat, d: seq<nat>, e: seq<nat>)
    requires ValidLengths(lens) && ListsCover(|lens|, s0, d, e) && PlanFor(P, lens, s0, d, e)
    ensures P.l <= 16 && P.g <= 16
  {
  }
}
