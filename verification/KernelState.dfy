/** The process kernel of kernel/hilevel.c as a state and the steps that system
    calls and timer ticks take: the process table with its allocation bitmap,
    the two schedulers, context switches, and the counting semaphores. */
module KernelState {
  import opened Common
  import opened Descriptors

  // PCB_SIZE is 32 (hilevel.h:44), the number of bits in the allocation word.
  const PCB_SIZE := 32
  const WORD := 0x1_0000_0000

  datatype Status = Created | Ready | Executing | Waiting | Terminated

  /** Registers; gpr has 13 entries, of which calls use the first two. */
  datatype Ctx = Ctx(cpsr: nat, pc: nat, gpr: seq<nat>, sp: nat, lr: nat)

  datatype SemWait = SemWait(semId: nat, x: nat)

  /** `stack` is the address of the stack area; `age` belongs to the ageing scheduler. */
  datatype Pcb = Pcb(pid: nat, status: Status, basePriority: int, age: int, waiting: Option<SemWait>,
                     stack: nat, fdt: seq<int>, ctx: Ctx)

  /** The kernel's variables, and the registers of the running process; of the
      pipes, whether each is in use. */
  datatype State = State(pcb: seq<Pcb>, alloc: nat, current: nat, runtime: int, sem: seq<nat>,
                         openft: seq<FileSlot>, pipes: seq<bool>, ctx: Ctx)

  // --------------------------------------------------------- allocation word

  /** (n >> i) & 1 */
  predicate Bit(n: nat, i: nat) { if i == 0 then n % 2 == 1 else Bit(n / 2, i - 1) }

  /** 1 << i */
  function Shl1(i: nat): (r: nat)
    ensures r >= 1
  {
    if i == 0 then 1 else 2 * Shl1(i - 1)
  }

  /** Setting a clear bit is adding its value. */
  lemma {:induction false} BitSet(n: nat, i: nat, j: nat)
    requires !Bit(n, i)
    ensures Bit(n + Shl1(i), j) <==> j == i || Bit(n, j)
    decreases i + j
  {
    if i > 0 {
      var p := Shl1(i - 1);
      assert (n + 2 * p) / 2 == n / 2 + p && (n + 2 * p) % 2 == n % 2;
      if j > 0 { BitSet(n / 2, i - 1, j - 1); }
    } else if j > 0 {
      assert (n + 1) / 2 == n / 2;
    }
  }

  /** Clearing a set bit is subtracting its value. */
  lemma {:induction false} BitClear(n: nat, i: nat, j: nat)
    requires Bit(n, i)
    ensures n >= Shl1(i) && (Bit(n - Shl1(i), j) <==> j != i && Bit(n, j))
    decreases i + j
  {
    if i > 0 {
      var p := Shl1(i - 1);
      BitClear(n / 2, i - 1, if j > 0 then j - 1 else 0);
      assert (n - 2 * p) / 2 == n / 2 - p && (n - 2 * p) % 2 == n % 2;
    } else if j > 0 {
      assert (n - 1) / 2 == n / 2;
    }
  }

  lemma {:induction false} BitBeyond(n: nat, w: nat, i: nat)
    requires n < Shl1(w) && w <= i
    ensures !Bit(n, i)
    decreases w
  {
    if w == 0 {
      BitZero(i);
    } else {
      BitBeyond(n / 2, w - 1, i - 1);
    }
  }

  lemma {:induction false} BitZero(i: nat)
    ensures !Bit(0, i)
  {
    if i > 0 { BitZero(i - 1); }
  }

  /** A number with bits only below w is less than 1 << w. */
  lemma {:induction false} BitsBelow(n: nat, w: nat)
    requires forall i :: w <= i ==> !Bit(n, i)
    ensures n < Shl1(w)
    decreases w, n
  {
    if w == 0 {
      if n > 0 {
        assert !Bit(n, 0);
        forall i | 0 <= i ensures !Bit(n / 2, i) { assert !Bit(n, i + 1); }
        BitsBelow(n / 2, 0);
      }
    } else {
      forall i | w - 1 <= i ensures !Bit(n / 2, i) { assert !Bit(n, i + 1); }
      BitsBelow(n / 2, w - 1);
    }
  }

  /** The set of processes an allocation word stands for. */
  function Live(alloc: nat): set<nat> { set i | 0 <= i < 32 && Bit(alloc, i) }

  /** The word is zero when no process is left. */
  lemma EmptyWord(n: nat)
    requires n < Shl1(32)
    ensures n == 0 <==> Live(n) == {}
  {
    if n == 0 {
      forall i | 0 <= i < 32 ensures !Bit(n, i) { BitZero(i); }
    } else if Live(n) == {} {
      forall i: nat {:trigger Bit(n, i)} ensures !Bit(n, i) {
        if i < 32 { assert i !in Live(n); } else { BitBeyond(n, 32, i); }
      }
      BitsBelow(n, 0);
    }
  }

  // -------------------------------------------------------------- invariant

  predicate Exists(s: State, i: nat) { Bit(s.alloc, i) }

  predicate CanRun(s: State, i: nat)
    requires i < |s.pcb|
  {
    Bit(s.alloc, i) && (s.pcb[i].status == Created || s.pcb[i].status == Ready)
  }

  ghost predicate CtxOk(c: Ctx) {
    |c.gpr| == 13 && c.sp < WORD && forall r :: 0 <= r < 13 ==> c.gpr[r] < WORD
  }

  /** Arrays have their sizes and words their width. */
  ghost predicate Shaped(s: State) {
    && |s.pcb| == 32 && |s.sem| == 32 && |s.openft| == 64 && |s.pipes| == 32 && s.current < 32 && s.alloc < Shl1(32)
    && (forall i :: 0 <= i < 32 ==> s.sem[i] < WORD)
    && (forall i :: 0 <= i < 32 ==> |s.pcb[i].fdt| == 32)
  }

  ghost predicate RegistersOk(s: State) {
    CtxOk(s.ctx) && forall i :: 0 <= i < |s.pcb| ==> CtxOk(s.pcb[i].ctx) && s.pcb[i].stack < WORD
  }

  /** One live process is executing, and it is `current`; every other live one
      is ready, new, or waiting for a semaphore. */
  ghost predicate Others(s: State)
    requires |s.pcb| == 32
  {
    forall i :: 0 <= i < 32 && Exists(s, i) && i != s.current ==>
      && s.pcb[i].pid == i
      && (s.pcb[i].status == Created || s.pcb[i].status == Ready
          || (s.pcb[i].status == Waiting && s.pcb[i].waiting.Some?))
  }

  ghost predicate Good(s: State) {
    && Shaped(s) && Exists(s, s.current)
    && s.pcb[s.current].pid == s.current && s.pcb[s.current].status == Executing
    && Others(s)
  }

  /** Registers as process p sees them: in the processor, or saved. */
  function Registers(s: State, p: nat): Ctx
    requires p < |s.pcb|
  {
    if p == s.current then s.ctx else s.pcb[p].ctx
  }

  // --------------------------------------------------------- context switch

  /** context_switch from the running process. */
  function Switch(s: State, to: nat, stat: Status): State
    requires to < |s.pcb| && s.current < |s.pcb|
  {
    var saved := s.pcb[s.current := s.pcb[s.current].(ctx := s.ctx, status := stat)];
    s.(pcb := saved[to := saved[to].(status := Executing)], current := saved[to].pid, ctx := saved[to].ctx)
  }

  /** The table index d places behind c, around the end. */
  function Slot(c: nat, d: nat): (i: nat)
    ensures i < 32
  {
    (c + d) % 32
  }

  function Distance(c: nat, i: nat): (d: nat)
    requires c < 32 && i < 32
    ensures d < 32 && (d == 0 <==> i == c) && Slot(c, d) == i
  {
    if i >= c then i - c else i + 32 - c
  }

  lemma SlotOnce(c: nat, d: nat)
    requires c < 32 && 1 <= d <= 32
    ensures Slot(c, d) == c <==> d == 32
    ensures d < 32 ==> Distance(c, Slot(c, d)) == d
    ensures Slot(c, d) == if c + d < 32 then c + d else if c + d < 64 then c + d - 32 else 0
    ensures (Slot(c, d) + 1) % 32 == Slot(c, d + 1) && (c + 1) % 32 == Slot(c, 1)
  {
    Around(c + d);
    Around(c + d + 1);
    Around(Slot(c, d) + 1);
  }

  lemma Around(x: nat)
    requires x <= 64
    ensures x % 32 == if x < 32 then x else if x < 64 then x - 32 else 0
  {
  }

  /** Distance from `current` to the first process behind it that can run, 32 if
      there is none. */
  function Ahead(s: State, d: nat): (r: nat)
    requires |s.pcb| == 32 && s.current < 32 && 1 <= d <= 32
    ensures d <= r <= 32
    ensures r < 32 ==> CanRun(s, Slot(s.current, r))
    ensures forall e :: d <= e < r ==> !CanRun(s, Slot(s.current, e))
    decreases 32 - d
  {
    if d == 32 || CanRun(s, Slot(s.current, d)) then d else Ahead(s, d + 1)
  }

  /** One turn of the scan for a process that can run, and its end. */
  lemma AheadTurn(s: State, d: nat)
    requires |s.pcb| == 32 && s.current < 32 && 1 <= d <= 32
    ensures Ahead(s, d) == if d == 32 || CanRun(s, Slot(s.current, d)) then d else Ahead(s, d + 1)
  {
  }

  function NextPid(s: State): (i: nat)
    requires |s.pcb| == 32 && s.current < 32
    ensures i < 32
  {
    Slot(s.current, Ahead(s, 1))
  }

  /** Another process could run in place of the current one. */
  ghost predicate OtherRunnable(s: State)
    requires |s.pcb| == 32
  {
    exists i :: 0 <= i < 32 && i != s.current && CanRun(s, i)
  }

  lemma AheadMeans(s: State)
    requires |s.pcb| == 32 && s.current < 32
    ensures OtherRunnable(s) <==> Ahead(s, 1) < 32
    ensures NextPid(s) == s.current <==> Ahead(s, 1) == 32
    ensures Ahead(s, 1) < 32 ==> CanRun(s, NextPid(s))
  {
    hide Slot, CanRun;
    SlotOnce(s.current, Ahead(s, 1));
    if OtherRunnable(s) {
      var i :| 0 <= i < 32 && i != s.current && CanRun(s, i);
      assert Slot(s.current, Distance(s.current, i)) == i;
    }
  }

  /** next(): hand the processor to the next process that can run, if any. */
  function Next(s: State, stat: Status): State
    requires |s.pcb| == 32 && s.current < 32
  {
    var s1 := s.(runtime := 0);
    if NextPid(s) != s.current then Switch(s1, NextPid(s), stat) else s1
  }

  /** schedule(), round-robin weighted by priority. */
  function Tick(s: State): State
    requires |s.pcb| == 32 && s.current < 32
  {
    var s1 := if s.runtime >= s.pcb[s.current].basePriority then Next(s, Ready) else s;
    s1.(runtime := s1.runtime + 1)
  }

  /** Handing over touches registers and status alone, and blocks and unblocks
      nobody but the process that steps down. */
  lemma NextKeeps(s: State, stat: Status)
    requires Shaped(s) && Others(s) && s.pcb[s.current].pid == s.current
    ensures var t := Next(s, stat);
            && Shaped(t) && t.alloc == s.alloc && t.sem == s.sem && t.openft == s.openft && t.pipes == s.pipes
            && forall i :: 0 <= i < 32 ==>
                 && t.pcb[i].waiting == s.pcb[i].waiting && t.pcb[i].fdt == s.pcb[i].fdt
                 && (i != s.current || (stat == Waiting <==> s.pcb[i].status == Waiting) ==>
                       (t.pcb[i].status == Waiting <==> s.pcb[i].status == Waiting))
  {
    hide Ahead, Slot, Bit, Shl1;
    AheadMeans(s);
  }

  /** Handing over keeps the kernel's invariant, exactly if some other process
      can take over or the current one is still runnable; and no process's
      registers are disturbed by it. */
  lemma NextGood(s: State, stat: Status)
    requires Shaped(s) && Others(s) && s.pcb[s.current].pid == s.current
    requires stat == Ready || stat == Terminated || (stat == Waiting && s.pcb[s.current].waiting.Some?)
    requires stat == Terminated <==> !Exists(s, s.current)
    requires s.pcb[s.current].status == if stat == Ready then Executing else stat
    ensures Good(Next(s, stat)) <==> stat == Ready || OtherRunnable(s)
    ensures forall p :: 0 <= p < 32 ==> Registers(Next(s, stat), p) == Registers(s, p)
    ensures Next(s, stat).alloc == s.alloc && Next(s, stat).sem == s.sem
    ensures RegistersOk(s) ==> RegistersOk(Next(s, stat))
  {
    hide Ahead, Slot, Bit, Shl1, NextPid;
    AheadMeans(s);
  }

  lemma TickGood(s: State)
    requires Good(s)
    ensures Good(Tick(s))
    ensures forall p :: 0 <= p < 32 ==> Registers(Tick(s), p) == Registers(s, p)
    ensures Tick(s).alloc == s.alloc && Tick(s).sem == s.sem
    ensures RegistersOk(s) ==> RegistersOk(Tick(s))
  {
    NextGood(s, Ready);
  }

  // ---------------------------------------------------------------- fork etc.

  /** new_pcb_entry: the least free index, 32 if there is none. */
  function FirstClear(alloc: nat, i: nat): (r: nat)
    requires i <= 32
    ensures i <= r <= 32 && (r < 32 ==> !Bit(alloc, r))
    ensures forall j :: i <= j < r ==> Bit(alloc, j)
    decreases 32 - i
  {
    if i == 32 || !Bit(alloc, i) then i else FirstClear(alloc, i + 1)
  }

  function SetResult(c: Ctx, v: nat): Ctx
    requires |c.gpr| > 0
  {
    c.(gpr := c.gpr[0 := v])
  }

  /** The stack area that malloc gives a child lies inside the address space. */
  predicate StackOk(childStack: Option<nat>) { childStack.Some? ==> childStack.value < WORD }

  /** There is memory for a child's stack, or no room for a child. */
  predicate HasStack(s: State, childStack: Option<nat>) { childStack.Some? || FirstClear(s.alloc, 0) == 32 }

  /** do_fork with the stack area that malloc gives the child.  Without one, the
      copy of the parent's entry stays behind as it is. */
  function Fork(s: State, childStack: Option<nat>): State
    requires |s.pcb| == 32 && s.current < 32 && |s.ctx.gpr| == 13
  {
    var parent := s.pcb[s.current].(ctx := s.ctx);
    var saved := s.pcb[s.current := parent];
    var c := FirstClear(s.alloc, 0);
    if c == 32 then s.(pcb := saved, ctx := SetResult(s.ctx, WORD - 1))
    else if childStack.None? then
      s.(pcb := saved[c := parent], alloc := s.alloc + Shl1(c), ctx := SetResult(s.ctx, WORD - 2))
    else
      var stack := childStack.value;
      var sp := (s.ctx.sp + WORD + stack % WORD - parent.stack % WORD) % WORD;
      var child := parent.(pid := c, status := Created, ctx := SetResult(s.ctx, 0).(sp := sp), stack := stack);
      s.(pcb := saved[c := child], alloc := s.alloc + Shl1(c), ctx := SetResult(s.ctx, c),
         openft := ShareFrom(s.openft, parent.fdt, 0))
  }

  /** A fork adds one process, the least free one, to the set of live processes,
      and keeps the invariant exactly if there is memory for the child's stack or
      no room for the child: otherwise two processes are executing. */
  lemma ForkGood(s: State, childStack: Option<nat>)
    requires Good(s) && RegistersOk(s) && StackOk(childStack)
    ensures Good(Fork(s, childStack)) <==> HasStack(s, childStack)
    ensures RegistersOk(Fork(s, childStack)) && Fork(s, childStack).current == s.current
    ensures var t, c := Fork(s, childStack), FirstClear(s.alloc, 0);
            && (c == 32 ==> t.alloc == s.alloc)
            && (c < 32 ==> Live(t.alloc) == Live(s.alloc) + {c} && c !in Live(s.alloc))
            && (c < 32 ==> t.pcb[c].status == if childStack.Some? then Created else Executing)
  {
    hide Bit, Shl1, Live, ShareFrom;
    ForkShaped(s, childStack);
    var c := FirstClear(s.alloc, 0);
    if c < 32 {
      TakeBit(s.alloc, c);
      assert Exists(Fork(s, childStack), c) && c != s.current;
    }
  }

  lemma ForkShaped(s: State, childStack: Option<nat>)
    requires Good(s) && RegistersOk(s) && StackOk(childStack)
    ensures Shaped(Fork(s, childStack)) && RegistersOk(Fork(s, childStack)) && Fork(s, childStack).current == s.current
  {
    hide Bit, Shl1, Live, Others, ShareFrom;
    var c := FirstClear(s.alloc, 0);
    if c < 32 { TakeBit(s.alloc, c); }
  }

  /** The child's registers differ from its parent's in the result and in the
      stack pointer, which lies as far into the child's stack as the parent's into
      its own; the parent's get the result; nobody else's change. */
  lemma ForkRegisters(s: State, childStack: Option<nat>)
    requires Good(s) && RegistersOk(s) && StackOk(childStack)
    ensures var t, c := Fork(s, childStack), FirstClear(s.alloc, 0);
            && Registers(t, s.current)
               == SetResult(s.ctx, if c == 32 then WORD - 1 else if childStack.None? then WORD - 2 else c)
            && (c < 32 && childStack.Some? ==>
                  && Registers(t, c).gpr == SetResult(s.ctx, 0).gpr && Registers(t, c).pc == s.ctx.pc
                  && (Registers(t, c).sp - t.pcb[c].stack) % WORD == (s.ctx.sp - s.pcb[s.current].stack) % WORD)
            && forall p :: 0 <= p < 32 && Exists(s, p) && p != s.current ==> Registers(t, p) == Registers(s, p)
  {
    hide Bit, Shl1, Others;
    if childStack.Some? { OffsetKept(s.ctx.sp, childStack.value, s.pcb[s.current].stack); }
  }

  /** Allocating the process number c. */
  lemma TakeBit(n: nat, c: nat)
    requires n < Shl1(32) && c < 32 && !Bit(n, c)
    ensures n + Shl1(c) < Shl1(32) && forall j :: Bit(n + Shl1(c), j) <==> j == c || Bit(n, j)
    ensures Live(n + Shl1(c)) == Live(n) + {c} && c !in Live(n)
  {
    forall j ensures Bit(n + Shl1(c), j) <==> j == c || Bit(n, j) { BitSet(n, c, j); }
    forall j: nat {:trigger Bit(n + Shl1(c), j)} | 32 <= j ensures !Bit(n + Shl1(c), j) { BitBeyond(n, 32, j); }
    BitsBelow(n + Shl1(c), 32);
    assert Live(n + Shl1(c)) == Live(n) + {c};
  }

  lemma OffsetKept(sp: nat, child: nat, parent: nat)
    requires sp < WORD && child < WORD && parent < WORD
    ensures ((sp + WORD + child % WORD - parent % WORD) % WORD - child) % WORD == (sp - parent) % WORD
  {
  }

  /** do_kill of another process, and the removal part of do_exit. */
  function Remove(s: State, p: nat): State
    requires Bit(s.alloc, p)
  {
    BitClear(s.alloc, p, 0);
    s.(alloc := s.alloc - Shl1(p))
  }

  lemma RemoveLive(s: State, p: nat)
    requires Bit(s.alloc, p)
    ensures Live(Remove(s, p).alloc) == Live(s.alloc) - {p}
    ensures forall j :: Bit(Remove(s, p).alloc, j) <==> j != p && Bit(s.alloc, j)
    ensures s.alloc < Shl1(32) ==> Remove(s, p).alloc < Shl1(32)
  {
    forall j ensures Bit(Remove(s, p).alloc, j) <==> j != p && Bit(s.alloc, j) { BitClear(s.alloc, p, j); }
    assert Live(Remove(s, p).alloc) == Live(s.alloc) - {p};
  }

  function Kill(s: State, pid: nat): State {
    if pid < 32 && Exists(s, pid) then Remove(s, pid) else s
  }

  /** Killing keeps the invariant exactly if the victim is not the caller. */
  lemma KillGood(s: State, pid: nat)
    requires Good(s)
    ensures Good(Kill(s, pid)) <==> pid != s.current
    ensures Live(Kill(s, pid).alloc) == Live(s.alloc) - {pid} && Kill(s, pid).pcb == s.pcb && Kill(s, pid).ctx == s.ctx
    ensures Kill(s, pid).current == s.current && Kill(s, pid).sem == s.sem
    ensures forall p :: 0 <= p < 32 ==> Registers(Kill(s, pid), p) == Registers(s, p)
    ensures RegistersOk(s) ==> RegistersOk(Kill(s, pid))
  {
    if pid < 32 && Exists(s, pid) { RemoveLive(s, pid); }
  }

  /** do_exit: close everything and leave the table. */
  function Leave(s: State): State
    requires |s.pcb| == 32 && s.current < 32 && Exists(s, s.current)
  {
    var p := s.pcb[s.current];
    var (fdt, openft) := CloseFrom(p.fdt, s.openft, 0);
    var left := p.(status := Terminated, basePriority := -1, fdt := fdt);
    Remove(s.(pcb := s.pcb[s.current := left], openft := openft), s.current)
  }

  /** The system call EXIT. */
  function Exit(s: State): State
    requires |s.pcb| == 32 && s.current < 32 && Exists(s, s.current)
  {
    Next(Leave(s), Terminated)
  }

  lemma LeaveKeeps(s: State)
    requires Good(s)
    ensures Shaped(Leave(s)) && Others(Leave(s)) && !Exists(Leave(s), s.current) && Leave(s).current == s.current
    ensures Live(Leave(s).alloc) == Live(s.alloc) - {s.current} && Leave(s).ctx == s.ctx
    ensures Leave(s).pcb[s.current].pid == s.current && Leave(s).pcb[s.current].status == Terminated
    ensures Leave(s).sem == s.sem
    ensures forall i :: 0 <= i < 32 && i != s.current ==>
              Leave(s).pcb[i] == s.pcb[i] && (CanRun(Leave(s), i) <==> CanRun(s, i))
    ensures RegistersOk(s) ==> RegistersOk(Leave(s))
  {
    hide Bit, Shl1, Live, CloseFrom, CtxOk;
    CloseFromSizes(s.pcb[s.current].fdt, s.openft, 0);
    RemoveLive(s, s.current);
  }

  lemma LeftOver(s: State)
    requires |s.pcb| == 32 && s.current < 32 && Exists(s, s.current)
    ensures Live(Leave(s).alloc) == {} <==> Live(s.alloc) == {s.current}
  {
    RemoveLive(s, s.current);
    assert s.current in Live(s.alloc);
  }

  lemma ExitGood(s: State)
    requires Good(s)
    ensures Good(Exit(s)) <==> OtherRunnable(s)
    ensures Live(Exit(s).alloc) == Live(s.alloc) - {s.current}
    ensures forall p :: 0 <= p < 32 && p != s.current ==> Registers(Exit(s), p) == Registers(s, p)
    ensures RegistersOk(s) ==> RegistersOk(Exit(s))
  {
    hide Leave, CanRun, NextPid, Next;
    LeaveKeeps(s);
    var t := Leave(s);
    if OtherRunnable(s) {
      var i :| 0 <= i < 32 && i != s.current && CanRun(s, i);
      assert CanRun(t, i);
    }
    NextGood(t, Terminated);
  }

  // -------------------------------------------------------------- semaphores

  /** Process i waits for at most x units of semaphore id. */
  predicate Eligible(s: State, i: nat, id: nat, x: nat)
    requires i < |s.pcb|
  {
    && Exists(s, i) && s.pcb[i].status == Waiting
    && s.pcb[i].waiting.Some? && s.pcb[i].waiting.value.semId == id && s.pcb[i].waiting.value.x <= x
  }

  /** Distance to the first eligible process behind the current one, 32 if none. */
  function Waiter(s: State, id: nat, x: nat, d: nat): (r: nat)
    requires |s.pcb| == 32 && s.current < 32 && 1 <= d <= 32
    ensures d <= r <= 32
    ensures r < 32 ==> Eligible(s, Slot(s.current, r), id, x)
    ensures forall e :: d <= e < r ==> !Eligible(s, Slot(s.current, e), id, x)
    decreases 32 - d
  {
    if d == 32 || Eligible(s, Slot(s.current, d), id, x) then d else Waiter(s, id, x, d + 1)
  }

  /** One turn of the scan for a waiter, and its end. */
  lemma WaiterTurn(s: State, id: nat, x: nat, d: nat)
    requires |s.pcb| == 32 && s.current < 32 && 1 <= d <= 32
    ensures Waiter(s, id, x, d)
            == if d == 32 || Eligible(s, Slot(s.current, d), id, x) then d else Waiter(s, id, x, d + 1)
  {
  }

  /** do_sem_post: hand x units to one eligible waiter, the rest to the semaphore. */
  function Post(s: State, id: nat, x: nat): State
    requires |s.pcb| == 32 && |s.sem| == 32 && s.current < 32
  {
    if id >= 32 || x == 0 then s
    else
      var d := Waiter(s, id, x, 1);
      if d == 32 then s.(sem := s.sem[id := (s.sem[id] + x) % WORD])
      else
        var i := Slot(s.current, d);
        s.(pcb := s.pcb[i := s.pcb[i].(status := Ready)],
           sem := s.sem[id := (s.sem[id] + x - s.pcb[i].waiting.value.x) % WORD])
  }

  /** do_sem_wait without the hand-over: take the units or become waiting. */
  function Take(s: State, id: nat, x: nat): State
    requires |s.pcb| == 32 && |s.sem| == 32 && s.current < 32 && id < 32
  {
    if s.sem[id] >= x then s.(sem := s.sem[id := s.sem[id] - x])
    else s.(pcb := s.pcb[s.current := s.pcb[s.current].(status := Waiting, waiting := Some(SemWait(id, x)))])
  }

  /** The system call SEM_WAIT. */
  function Wait(s: State, id: nat, x: nat): State
    requires |s.pcb| == 32 && |s.sem| == 32 && s.current < 32 && id < 32
  {
    if s.sem[id] >= x then Take(s, id, x) else Next(Take(s, id, x), Waiting)
  }

  lemma PostGood(s: State, id: nat, x: nat)
    requires Good(s)
    ensures Good(Post(s, id, x)) && Post(s, id, x).alloc == s.alloc && Post(s, id, x).current == s.current
    ensures forall p :: 0 <= p < 32 ==> Registers(Post(s, id, x), p) == Registers(s, p)
    ensures RegistersOk(s) ==> RegistersOk(Post(s, id, x))
  {
  }

  /** A wait keeps the invariant exactly if the units are there or some other
      process can run meanwhile. */
  lemma WaitGood(s: State, id: nat, x: nat)
    requires Good(s) && id < 32
    ensures Good(Wait(s, id, x)) <==> s.sem[id] >= x || OtherRunnable(s)
    ensures Wait(s, id, x).alloc == s.alloc
    ensures forall p :: 0 <= p < 32 ==> Registers(Wait(s, id, x), p) == Registers(s, p)
    ensures RegistersOk(s) ==> RegistersOk(Wait(s, id, x))
  {
    hide Next, Bit;
    if s.sem[id] < x {
      BlockRunnable(s, id, x);
      NextGood(Take(s, id, x), Waiting);
    }
  }

  /** Blocking makes nobody else runnable, and stops nobody else. */
  lemma BlockRunnable(s: State, id: nat, x: nat)
    requires Good(s) && id < 32 && s.sem[id] < x
    ensures OtherRunnable(Take(s, id, x)) <==> OtherRunnable(s)
  {
    var t := Take(s, id, x);
    assert forall i :: 0 <= i < 32 && i != s.current ==> (CanRun(t, i) <==> CanRun(s, i));
  }
}
