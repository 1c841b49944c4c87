// c/signal.c and sys_sigreturn of c/disp.c: handler frames pushed on a process's
// stack, one for each pending signal, and popped again by sigreturn.
module Signal {

  const MAX_SIG: nat := 32

  /** STARTING_EFLAGS | ARM_INTERRUPTS, lines 8-9. */
  const EFLAGS := 0x00003200
  const FILLER := 0xA5A5A5A5

  /** The registers of a process. */
  datatype Cpu = Cpu(edi: int, esi: int, ebp: int, ebx: int, edx: int, ecx: int, eax: int, eip: int, cs: int,
    eflags: int, esp: int)

  /** Words of memory by their address. */
  type Words = map<int, int>

  /** Addresses the kernel puts into a frame. */
  datatype Kernel = Kernel(sigtramp: int, sysstop: int, cs: int)

  /** Lines 21-26: the highest masked signal, -1 if there is none. */
  function Highest(m: seq<bool>): (h: int)
    ensures -1 <= h < |m|
    ensures h >= 0 ==> m[h]
    ensures forall i :: h < i < |m| ==> !m[i]
  {
    if m == [] then -1 else if m[|m| - 1] then |m| - 1 else Highest(m[..|m| - 1])
  }

  /** The set signals from i on, in ascending order. */
  function SetFrom(p: seq<bool>, i: nat): (s: seq<nat>)
    requires i <= |p|
    decreases |p| - i
  {
    if i == |p| then [] else (if p[i] then [i] else []) + SetFrom(p, i + 1)
  }

  /** s lists the set signals from i on, each once, in strictly ascending order. */
  ghost predicate Ascending(p: seq<bool>, i: nat, s: seq<nat>)
  {
    && (forall k :: 0 <= k < |s| ==> i <= s[k] < |p| && p[s[k]])
    && (forall j, k :: 0 <= j < k < |s| ==> s[j] < s[k])
    && (forall n: nat :: i <= n < |p| && p[n] ==> n in s)
  }

  lemma {:induction false} SetFromMeans(p: seq<bool>, i: nat)
    requires i <= |p|
    ensures Ascending(p, i, SetFrom(p, i))
    decreases |p| - i
  {
    if i < |p| {
      SetFromMeans(p, i + 1);
      AscendingCons(p, i, SetFrom(p, i + 1));
    }
  }

  lemma AscendingCons(p: seq<bool>, i: nat, t: seq<nat>)
    requires i < |p| && Ascending(p, i + 1, t)
    ensures Ascending(p, i, (if p[i] then [i] else []) + t)
  {
    if p[i] {
      var s := [i] + t;
      assert forall k :: 1 <= k < |s| ==> s[k] == t[k - 1];
      forall n: nat | i <= n < |p| && p[n]
        ensures n in s
      {
        if n == i {
          assert s[0] == n;
        } else {
          assert n in t;
        }
      }
    } else {
      assert [] + t == t;
    }
  }

  /** The pending signals, lowest first. */
  function Pending(p: seq<bool>): seq<nat>
  {
    SetFrom(p, 0)
  }

  lemma PendingMeans(p: seq<bool>)
    ensures Ascending(p, 0, Pending(p))
  {
    SetFromMeans(p, 0);
  }

  /** Delivering the lowest pending signal leaves the others. */
  lemma {:induction false} SetFromSkips(p: seq<bool>, i: nat, j: nat)
    requires i <= j <= |p| && forall n :: i <= n < j ==> !p[n]
    ensures SetFrom(p, i) == SetFrom(p, j)
    decreases j - i
  {
    if i < j {
      SetFromSkips(p, i + 1, j);
    }
  }

  lemma {:induction false} SetFromSame(p: seq<bool>, q: seq<bool>, i: nat)
    requires i <= |p| == |q| && forall n :: i <= n < |p| ==> p[n] == q[n]
    ensures SetFrom(p, i) == SetFrom(q, i)
    decreases |p| - i
  {
    if i < |p| {
      SetFromSame(p, q, i + 1);
    }
  }

  lemma LowestFirst(p: seq<bool>, n: nat)
    requires n < |p| && p[n] && forall i :: 0 <= i < n ==> !p[i]
    ensures Pending(p) == [n] + Pending(p[n := false])
  {
    var q := p[n := false];
    SetFromSkips(p, 0, n);
    SetFromSkips(q, 0, n + 1);
    SetFromSame(p, q, n + 1);
  }

  lemma NonePending(p: seq<bool>)
    requires forall i :: 0 <= i < |p| ==> !p[i]
    ensures Pending(p) == []
  {
    SetFromSkips(p, 0, |p|);
  }

  predicate Word(stack: Words, a: int, v: int)
  {
    a in stack && stack[a] == v
  }

  /** Lines 62-68: the eleven registers at cf, as sigtramp is to start with them. */
  ghost predicate Registers(stack: Words, cf: int, k: Kernel)
  {
    && Word(stack, cf, FILLER) && Word(stack, cf + 4, FILLER) && Word(stack, cf + 8, cf + 44) &&
         Word(stack, cf + 12, cf + 44)
    && Word(stack, cf + 16, FILLER) && Word(stack, cf + 20, FILLER) && Word(stack, cf + 24, FILLER) &&
         Word(stack, cf + 28, FILLER)
    && Word(stack, cf + 32, k.sigtramp) && Word(stack, cf + 36, k.cs) && Word(stack, cf + 40, EFLAGS)
  }

  /** Lines 43-57 and 68: return address, handler, its argument and the mask level, as sigtramp's caller would leave
      them. */
  ghost predicate Saved(stack: Words, base: int, last: int, handler: int, k: Kernel)
  {
    && Word(stack, base - 4, last) && Word(stack, base - 8, base)
    && Word(stack, base - 12, handler) && Word(stack, base - 16, k.sysstop)
  }

  ghost predicate FrameAt(stack: Words, base: int, last: int, handler: int, k: Kernel)
  {
    Saved(stack, base, last, handler, k) && Registers(stack, base - FRAME, k)
  }

  const FRAME := 60

  /** Frames for `sigs`, the first below `base` and each below the one before, each holding the mask level it was
      pushed at. */
  ghost predicate Stacked(stack: Words, base: int, last: int, sigs: seq<nat>, table: seq<int>, k: Kernel)
    decreases |sigs|
  {
    sigs == [] ||
    (sigs[0] < |table| && FrameAt(stack, base, last, table[sigs[0]], k) &&
        Stacked(stack, base - FRAME, sigs[0], sigs[1..], table, k))
  }

  /** The mask holds exactly the signals 0 to h. */
  predicate MaskedTo(m: seq<bool>, h: int)
  {
    forall i :: 0 <= i < |m| ==> (m[i] <==> i <= h)
  }

  /** Memory at and above an address is as it was. */
  ghost predicate SameAbove(s: Words, s': Words, a: int)
  {
    forall b :: b >= a && b in s ==> b in s' && s'[b] == s[b]
  }

  lemma FrameStays(s: Words, s': Words, base: int, last: int, handler: int, k: Kernel, low: int)
    requires FrameAt(s, base, last, handler, k) && SameAbove(s, s', low) && low <= base - FRAME
    ensures FrameAt(s', base, last, handler, k)
  {
    var cf := base - FRAME;
    assert forall a, v :: a >= low && Word(s, a, v) ==> Word(s', a, v);
    hide Word, SameAbove;
  }

  lemma {:induction false} StackedStays(s: Words, s': Words, base: int, last: int, sigs: seq<nat>, table: seq<int>,
      k: Kernel, low: int)
    requires Stacked(s, base, last, sigs, table, k) && SameAbove(s, s', low) && low <= base - FRAME * |sigs|
    ensures Stacked(s', base, last, sigs, table, k)
    decreases |sigs|
  {
    if sigs != [] {
      FrameStays(s, s', base, last, table[sigs[0]], k, low);
      hide FrameAt, SameAbove;
      StackedStays(s, s', base - FRAME, sigs[0], sigs[1..], table, k, low);
    }
  }

  lemma FramePushed(s: Words, s1: Words, s2: Words, s3: Words, base: int, last: int, handler: int, k: Kernel)
    requires s1 == s[base - 4 := last][base - 8 := base][base - 12 := handler][base - 16 := 0]
    requires forall i :: 0 <= i < 11 ==> Word(s2, base - FRAME + 4 * i, FILLER)
    requires SameAbove(s1, s2, base - 16)
    requires var cf := base - FRAME;
             s3 == s2[cf + 36 := k.cs][cf + 32 := k.sigtramp][cf + 40 := EFLAGS]
               [cf + 12 := cf + 44][cf + 8 := cf + 44][cf + 44 := k.sysstop]
    ensures FrameAt(s3, base, last, handler, k) && SameAbove(s, s3, base)
  {
    var cf := base - FRAME;
    WordsPushed(s, s1, base, last, handler);
    assert Word(s2, base - 4, last) && Word(s2, base - 8, base) && Word(s2, base - 12, handler);
    assert SameAbove(s1, s2, base);
    RegistersAbove(s2, s3, base, k);
    SameTwice(s, s1, s2, s3, base);
    RegistersSet(s2, s3, cf, k);
    hide FrameAt, Registers, SameAbove;
    assert Saved(s3, base, last, handler, k);
    FrameOf(s3, base, last, handler, k);
  }

  lemma WordsPushed(s: Words, s1: Words, base: int, last: int, handler: int)
    requires s1 == s[base - 4 := last][base - 8 := base][base - 12 := handler][base - 16 := 0]
    ensures Word(s1, base - 4, last) && Word(s1, base - 8, base) && Word(s1, base - 12, handler)
    ensures SameAbove(s, s1, base)
  {
  }

  lemma RegistersAbove(s2: Words, s3: Words, base: int, k: Kernel)
    requires var cf := base - FRAME;
             s3 == s2[cf + 36 := k.cs][cf + 32 := k.sigtramp][cf + 40 := EFLAGS]
               [cf + 12 := cf + 44][cf + 8 := cf + 44][cf + 44 := k.sysstop]
    ensures SameAbove(s2, s3, base - 12) && Word(s3, base - 16, k.sysstop)
    ensures SameAbove(s2, s3, base)
  {
  }

  lemma SameTwice(s: Words, s1: Words, s2: Words, s3: Words, a: int)
    requires SameAbove(s, s1, a) && SameAbove(s1, s2, a) && SameAbove(s2, s3, a)
    ensures SameAbove(s, s3, a)
  {
  }

  lemma RegistersSet(s2: Words, s3: Words, cf: int, k: Kernel)
    requires forall i :: 0 <= i < 11 ==> Word(s2, cf + 4 * i, FILLER)
    requires s3 == s2[cf + 36 := k.cs][cf + 32 := k.sigtramp][cf + 40 := EFLAGS]
      [cf + 12 := cf + 44][cf + 8 := cf + 44][cf + 44 := k.sysstop]
    ensures Registers(s3, cf, k)
  {
    assert Word(s2, cf + 4 * 0, FILLER) && Word(s2, cf + 4 * 1, FILLER) && Word(s2, cf + 4 * 4, FILLER);
    assert Word(s2, cf + 4 * 5, FILLER) && Word(s2, cf + 4 * 6, FILLER) && Word(s2, cf + 4 * 7, FILLER);
  }

  lemma FrameOf(s: Words, base: int, last: int, handler: int, k: Kernel)
    requires Saved(s, base, last, handler, k) && Registers(s, base - FRAME, k)
    ensures FrameAt(s, base, last, handler, k)
  {
  }

  class Process {
    var esp: int
    var stack: Words
    const table: array<int>
    const pending: array<bool>
    const mask: array<bool>
    const kernel: Kernel

    predicate Shape()
      reads this
    {
      table.Length == pending.Length == mask.Length == MAX_SIG && pending != mask
    }

    constructor (esp: int, stack: Words, kernel: Kernel)
      ensures Shape() && fresh(table) && fresh(pending) && fresh(mask)
      ensures this.esp == esp && this.stack == stack && this.kernel == kernel && table.Length == 32
      ensures Pending(pending[..]) == [] && MaskedTo(mask[..], -1)
    {
      this.esp, this.stack, this.kernel := esp, stack, kernel;
      table := new int[MAX_SIG](i => 0);
      pending := new bool[MAX_SIG](i => false);
      mask := new bool[MAX_SIG](i => false);
      new;
      NonePending(pending[..]);
    }

    /** Lines 21-26. */
    method LastMasked() returns (last: int)
      requires Shape()
      ensures last == Highest(mask[..])
    {
      var i: int := MAX_SIG - 1;
      last := -1;
      while i >= 0
        invariant -1 <= i < MAX_SIG && last == -1
        invariant forall j :: i < j < MAX_SIG ==> !mask[j]
      {
        if mask[i] {
          last := i;
          break;
        }
        i := i - 1;
      }
    }

    /** Lines 28-33. */
    method FirstPending() returns (signum: int)
      requires Shape()
      ensures -1 <= signum < MAX_SIG
      ensures if signum == -1 then Pending(pending[..]) == []
              else pending[signum] && forall i :: 0 <= i < signum ==> !pending[i]
    {
      var i := 0;
      signum := -1;
      while i < MAX_SIG
        invariant 0 <= i <= MAX_SIG && signum == -1
        invariant forall j :: 0 <= j < i ==> !pending[j]
      {
        if pending[i] {
          signum := i;
          break;
        }
        i := i + 1;
      }
      if signum == -1 {
        NonePending(pending[..]);
      }
    }

    /** Lines 41-71. */
    method PushFrame(last: int, signum: nat)
      requires Shape() && signum < MAX_SIG
      modifies `esp, `stack
      ensures esp == old(esp) - FRAME
      ensures FrameAt(stack, old(esp), last, table[signum], kernel)
      ensures SameAbove(old(stack), stack, old(esp))
    {
      ghost var old0 := stack;
      var sp := esp;
      sp := sp - 4;
      stack := stack[sp := last];
      sp := sp - 4;
      stack := stack[sp := esp];
      sp := sp - 4;
      stack := stack[sp := table[signum]];
      sp := sp - 4;
      stack := stack[sp := 0];
      var cf := sp - 44;
      ghost var s1 := stack;
      Memset(cf, 11);
      ghost var s2 := stack;
      stack := stack[cf + 36 := kernel.cs];
      stack := stack[cf + 32 := kernel.sigtramp];
      stack := stack[cf + 40 := EFLAGS];
      stack := stack[cf + 12 := cf + 44];
      stack := stack[cf + 8 := stack[cf + 12]];
      stack := stack[cf + 44 := kernel.sysstop];
      FramePushed(old0, s1, s2, stack, esp, last, table[signum], kernel);
      esp := cf;
    }

    /** memset with 0xA5 over n words. */
    method Memset(from: int, n: nat)
      modifies `stack
      ensures forall i :: 0 <= i < n ==> Word(stack, from + 4 * i, FILLER)
      ensures SameAbove(old(stack), stack, from + 4 * n)
    {
      var i := 0;
      while i < n
        invariant 0 <= i <= n
        invariant forall j :: 0 <= j < i ==> Word(stack, from + 4 * j, FILLER)
        invariant SameAbove(old(stack), stack, from + 4 * n)
      {
        stack := stack[from + 4 * i := FILLER];
        i := i + 1;
      }
    }

    /** Lines 74-78. */
    method RaiseMask(signum: nat)
      requires Shape() && signum < MAX_SIG
      requires Highest(mask[..]) < signum
      modifies mask
      ensures MaskedTo(mask[..], signum)
    {
      var i := 0;
      while i <= signum
        invariant 0 <= i <= signum + 1
        invariant forall j :: 0 <= j < i ==> mask[j]
        invariant forall j :: signum < j < MAX_SIG ==> !mask[j]
      {
        mask[i] := true;
        i := i + 1;
      }
    }

    /** signal, lines 16-83: all pending signals at once, or none. */
    method Signal()
      requires Shape()
      modifies this, pending, mask
      ensures Shape()
      ensures var sigs, last := old(Pending(pending[..])), old(Highest(mask[..]));
              if sigs == [] || sigs[0] <= last then
                && esp == old(esp) && stack == old(stack)
                && pending[..] == old(pending[..]) && mask[..] == old(mask[..])
              else
                && esp == old(esp) - FRAME * |sigs|
                && Stacked(stack, old(esp), last, sigs, table[..], kernel)
                && SameAbove(old(stack), stack, old(esp))
                && Pending(pending[..]) == []
                && MaskedTo(mask[..], sigs[|sigs| - 1])
      decreases |Pending(pending[..])|
    {
      var last := LastMasked();
      var signum := FirstPending();
      if signum <= last || signum == -1 {
        if signum >= 0 {
          LowestFirst(pending[..], signum);
        }
        return;
      }
      LowestFirst(pending[..], signum);
      ghost var base, s0 := esp, stack;
      PushFrame(last, signum);
      pending[signum] := false;
      assert pending[..] == old(pending[..])[signum := false];
      RaiseMask(signum);
      HighestOf(mask[..], signum);
      ghost var s1, rest := stack, Pending(pending[..]);
      RestAbove(pending[..], signum);
      Signal();
      Delivered(s0, s1, stack, base, last, signum, rest, table[..], kernel);
    }

    /** sys_sigreturn of c/disp.c, lines 427-440: back to the stack pointer and below the mask level saved in the
        frame. */
    method SigReturn(oldSp: int)
      requires Shape() && oldSp - 4 in stack && -1 <= stack[oldSp - 4] < MAX_SIG
      modifies `esp, mask
      ensures esp == oldSp
      ensures forall h :: MaskedTo(old(mask[..]), h) ==> MaskedTo(mask[..], Lower(h, stack[oldSp - 4]))
    {
      esp := oldSp;
      var signum := stack[oldSp - 4];
      if signum == -1 {
        signum := 0;
      }
      var i := signum;
      while i < MAX_SIG
        invariant signum <= i <= MAX_SIG && esp == oldSp
        invariant forall j :: 0 <= j < MAX_SIG ==> mask[j] == (old(mask[j]) && !(signum <= j < i))
      {
        mask[i] := false;
        i := i + 1;
      }
    }

    /** The way into a process, c/ctsw.c lines 55-61: the result goes where eax was saved, then popa and iret. */
    method Resume(rc: int) returns (c: Cpu)
      requires forall i :: 0 <= i < 11 ==> esp + 4 * i in stack
      modifies `stack
      ensures stack == old(stack)[esp + 28 := rc] && c.eax == rc
      ensures Word(old(stack), esp, c.edi) && Word(old(stack), esp + 4, c.esi) && Word(old(stack), esp + 8, c.ebp)
      ensures Word(old(stack), esp + 16, c.ebx) && Word(old(stack), esp + 20, c.edx)
      ensures Word(old(stack), esp + 24, c.ecx)
      ensures Word(old(stack), esp + 32, c.eip) && Word(old(stack), esp + 36, c.cs)
      ensures Word(old(stack), esp + 40, c.eflags)
      ensures c.esp == esp + 44
    {
      assert esp + 4 * 0 in stack && esp + 4 * 1 in stack && esp + 4 * 2 in stack && esp + 4 * 4 in stack;
      assert esp + 4 * 5 in stack && esp + 4 * 6 in stack && esp + 4 * 8 in stack;
      assert esp + 4 * 9 in stack && esp + 4 * 10 in stack;
      stack := stack[esp + 28 := rc];
      c := Cpu(stack[esp], stack[esp + 4], stack[esp + 8], stack[esp + 16], stack[esp + 20], stack[esp + 24],
               stack[esp + 28], stack[esp + 32], stack[esp + 36], stack[esp + 40], esp + 44);
    }

    /** A process whose frames are all popped, top first, with the argument sigtramp finds in each. */
    method Unwind(ghost base: int, ghost last: int, ghost sigs: seq<nat>, ghost high: int, n: nat)
      requires Shape() && n == |sigs| && esp == base - FRAME * n && MaskedTo(mask[..], high)
      requires Stacked(stack, base, last, sigs, table[..], kernel) && Levels(last, sigs)
      modifies `esp, mask
      ensures esp == base
      ensures MaskedTo(mask[..], Unwound(high, last, sigs))
    {
      var i := n;
      assert sigs[..n] == sigs;
      while i > 0
        invariant 0 <= i <= n && esp == base - FRAME * i
        invariant Stacked(stack, base, last, sigs[..i], table[..], kernel)
        invariant exists h :: MaskedTo(mask[..], h) && Unwound(h, last, sigs[..i]) == Unwound(high, last, sigs)
      {
        ghost var h :| MaskedTo(mask[..], h) && Unwound(h, last, sigs[..i]) == Unwound(high, last, sigs);
        TopFrame(stack, base, last, sigs[..i], table[..], kernel);
        FrameSaved(stack, base - FRAME * (i - 1), Level(last, sigs[..i], i - 1), table[sigs[i - 1]], kernel);
        UnwoundStep(h, last, sigs, i);
        SigReturn(stack[esp + 52]);
        i := i - 1;
        assert sigs[..i + 1][..i] == sigs[..i];
      }
      assert sigs[..0] == [];
    }
  }

  /** The highest masked signal once those from the saved level on are cleared. */
  function Lower(h: int, level: int): int
  {
    var top := if level <= 0 then -1 else level - 1;
    if h < top then h else top
  }

  /** The mask level a frame saves: that of the signal stacked before it. */
  function Level(last: int, sigs: seq<nat>, i: nat): int
    requires i < |sigs|
  {
    if i == 0 then last else sigs[i - 1]
  }

  /** Saved mask levels are signals or -1, and rise. */
  ghost predicate Levels(last: int, sigs: seq<nat>)
  {
    && -1 <= last < MAX_SIG
    && (forall i :: 0 <= i < |sigs| ==> last < sigs[i] < MAX_SIG)
    && (forall i, j :: 0 <= i < j < |sigs| ==> sigs[i] < sigs[j])
  }

  /** The highest masked signal after all frames have been popped. */
  function Unwound(high: int, last: int, sigs: seq<nat>): int
    decreases |sigs|
  {
    if sigs == [] then high
    else Unwound(Lower(high, Level(last, sigs, |sigs| - 1)), last, sigs[..|sigs| - 1])
  }

  lemma UnwoundStep(high: int, last: int, sigs: seq<nat>, i: nat)
    requires 0 < i <= |sigs|
    ensures Unwound(high, last, sigs[..i]) == Unwound(Lower(high, Level(last, sigs[..i], i - 1)), last, sigs[..i - 1])
  {
    assert sigs[..i][..i - 1] == sigs[..i - 1];
  }

  /** A popped pile of frames leaves the mask one short of where it was, or empty if it was empty. */
  lemma UnwoundIs(high: int, last: int, sigs: seq<nat>)
    requires sigs != [] && Levels(last, sigs) && high == sigs[|sigs| - 1]
    ensures Unwound(high, last, sigs) == if last <= 0 then -1 else last - 1
    decreases |sigs|
  {
    UnwoundBelow(high, last, sigs);
  }

  lemma {:induction false} UnwoundBelow(high: int, last: int, sigs: seq<nat>)
    requires sigs != [] && Levels(last, sigs) && high >= Lower(high, last)
    requires high >= (if last <= 0 then -1 else last - 1)
    ensures Unwound(high, last, sigs) == if last <= 0 then -1 else last - 1
    decreases |sigs|
  {
    var n := |sigs|;
    if n > 1 {
      UnwoundBelow(Lower(high, sigs[n - 2]), last, sigs[..n - 1]);
    } else {
      assert sigs[..0] == [];
    }
  }

  /** The frame on top of a pile, found from the stack pointer. */
  lemma {:induction false} TopFrame(stack: Words, base: int, last: int, sigs: seq<nat>, table: seq<int>, k: Kernel)
    requires sigs != [] && Stacked(stack, base, last, sigs, table, k)
    ensures var n := |sigs|;
            var top := base - FRAME * (n - 1);
            && sigs[n - 1] < |table| && FrameAt(stack, top, Level(last, sigs, n - 1), table[sigs[n - 1]], k)
            && Stacked(stack, base, last, sigs[..n - 1], table, k)
    decreases |sigs|
  {
    var n := |sigs|;
    hide FrameAt;
    if n == 1 {
      assert sigs[..0] == [];
    } else {
      TopFrame(stack, base - FRAME, sigs[0], sigs[1..], table, k);
      assert sigs[1..][..n - 2] == sigs[..n - 1][1..];
      assert Level(sigs[0], sigs[1..], n - 2) == Level(last, sigs, n - 1);
    }
  }

  lemma FrameSaved(stack: Words, top: int, last: int, handler: int, k: Kernel)
    requires FrameAt(stack, top, last, handler, k)
    ensures Word(stack, top - 8, top) && Word(stack, top - 4, last)
  {
  }

  lemma RestAbove(p: seq<bool>, n: nat)
    requires n < |p| && forall i :: 0 <= i <= n ==> !p[i]
    ensures Pending(p) != [] ==> Pending(p)[0] > n
  {
    PendingMeans(p);
    assert Pending(p) != [] ==> p[Pending(p)[0]];
  }

  /** A frame with the rest of the frames under it. */
  lemma Delivered(s0: Words, s1: Words, s2: Words, base: int, last: int, signum: nat, rest: seq<nat>,
      table: seq<int>, k: Kernel)
    requires signum < |table| && FrameAt(s1, base, last, table[signum], k) && SameAbove(s0, s1, base)
    requires rest == [] ==> s2 == s1
    requires rest != [] ==> Stacked(s2, base - FRAME, signum, rest, table, k) && SameAbove(s1, s2, base - FRAME)
    ensures Stacked(s2, base, last, [signum] + rest, table, k) && SameAbove(s0, s2, base)
  {
    if rest != [] {
      FrameStays(s1, s2, base, last, table[signum], k, base - FRAME);
    }
    hide FrameAt;
    assert ([signum] + rest)[1..] == rest;
  }

  lemma HighestOf(m: seq<bool>, h: int)
    requires MaskedTo(m, h) && -1 <= h < |m|
    ensures Highest(m) == h
  {
  }

  /** Delivery followed by the return of every handler: the stack pointer is restored always, the mask exactly when it
      was empty or nothing was delivered. */
  method DeliverAndReturn(p: Process, n: nat)
    requires p.Shape() && MaskedTo(p.mask[..], Highest(p.mask[..]))
    requires n == if Pending(p.pending[..]) == [] ||
        Pending(p.pending[..])[0] <= Highest(p.mask[..]) then 0 else |Pending(p.pending[..])|
    modifies p, p.pending, p.mask
    ensures p.Shape() && p.esp == old(p.esp)
    ensures SameAbove(old(p.stack), p.stack, p.esp)
    ensures p.mask[..] == old(p.mask[..]) <==> n == 0 || Highest(old(p.mask[..])) == -1
    ensures n > 0 ==> MaskedTo(p.mask[..], if Highest(old(p.mask[..])) <= 0 then -1 else Highest(old(p.mask[..])) - 1)
  {
    hide Stacked, SetFrom, Unwound, Registers, Saved;
    ghost var base, last, sigs, m0 := p.esp, Highest(p.mask[..]), Pending(p.pending[..]), p.mask[..];
    PendingMeans(p.pending[..]);
    p.Signal();
    if n > 0 {
      assert Levels(last, sigs);
      UnwoundIs(sigs[n - 1], last, sigs);
      p.Unwind(base, last, sigs, sigs[n - 1], n);
      assert last >= 0 ==> m0[last] && !p.mask[..][last];
    }
  }

  /** A mask that does not come back: with signal 0 masked, delivering signal 1 and returning leaves nothing masked. */
  method OneSignal(p: Process)
    requires p.Shape() && (forall i :: 0 <= i < MAX_SIG ==> (p.mask[i] <==> i == 0) && (p.pending[i] <==> i == 1))
    modifies p, p.pending, p.mask
    ensures p.Shape() && p.esp == old(p.esp) && forall i :: 0 <= i < MAX_SIG ==> !p.mask[i]
  {
    HighestOf(p.mask[..], 0);
    LowestFirst(p.pending[..], 1);
    NonePending(p.pending[..][1 := false]);
    DeliverAndReturn(p, 1);
  }

  lemma FrameThere(stack: Words, top: int, last: int, handler: int, k: Kernel)
    requires FrameAt(stack, top, last, handler, k)
    ensures forall i :: 0 <= i < 11 ==> top - FRAME + 4 * i in stack
  {
    forall i | 0 <= i < 11
      ensures top - FRAME + 4 * i in stack
    {
      if i < 4 {
      } else if i < 8 {
      } else {
      }
    }
  }

  /** A process with a signal to handle starts in sigtramp, with interrupts on and at I/O privilege level 3, called as
      sigtramp(handler, context) from sysstop for the highest signal; the context is the stack pointer to go back to. */
  method StartHandler(p: Process, rc: int) returns (c: Cpu)
    requires p.Shape() && Pending(p.pending[..]) != [] && Pending(p.pending[..])[0] > Highest(p.mask[..])
    modifies p, p.pending, p.mask
    ensures c.eip == p.kernel.sigtramp && c.cs == p.kernel.cs && c.eax == rc
    ensures c.eflags / 0x200 % 2 == 1 && c.eflags / 0x1000 % 4 == 3 && c.eflags == 0x3000 + 0x200
    ensures var sigs := old(Pending(p.pending[..]));
      var context := old(p.esp) - 60 * (|sigs| - 1);
      && sigs[|sigs| - 1] < p.table.Length
      && c.ebp == c.esp == context - 16 && Word(p.stack, c.esp, p.kernel.sysstop)
      && Word(p.stack, c.esp + 4, p.table[sigs[|sigs| - 1]]) && Word(p.stack, c.esp + 8, context)
  {
    hide Stacked, SetFrom, FrameAt;
    ghost var base, last, sigs := p.esp, Highest(p.mask[..]), Pending(p.pending[..]);
    ghost var n := |sigs|;
    p.Signal();
    ghost var top, level := base - FRAME * (n - 1), Level(last, sigs, n - 1);
    TopFrame(p.stack, base, last, sigs, p.table[..], p.kernel);
    FrameThere(p.stack, top, level, p.table[sigs[n - 1]], p.kernel);
    ghost var s := p.stack;
    c := p.Resume(rc);
    FrameRuns(s, p.stack, top, level, p.table[sigs[n - 1]], p.kernel, rc, c);
  }

  lemma FrameRuns(s: Words, s': Words, top: int, last: int, handler: int, k: Kernel, rc: int, c: Cpu)
    requires FrameAt(s, top, last, handler, k) && s' == s[top - FRAME + 28 := rc]
    requires Word(s, top - FRAME + 8, c.ebp) && Word(s, top - FRAME + 32, c.eip)
    requires Word(s, top - FRAME + 36, c.cs) && Word(s, top - FRAME + 40, c.eflags)
    ensures c.eip == k.sigtramp && c.cs == k.cs && c.eflags == EFLAGS && c.ebp == top - 16
    ensures Word(s', top - 16, k.sysstop) && Word(s', top - 12, handler) && Word(s', top - 8, top)
  {
  }
}
