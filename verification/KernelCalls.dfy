/** The system call dispatcher of kernel/hilevel.c as one step function, and what
    every step and every run of system calls and timer ticks keeps. */
module KernelCalls {
  import opened Common
  import opened Descriptors
  import opened KernelState
  import opened DescriptorCounts

  /** What a call needs from outside this model: the path argument of OPEN and
      whether the file system finds or creates it, how many allocations succeed,
      the address of a forked child's stack if there is memory for one, and what a
      pipe or the file system answers to the other calls that go there. */
  datatype Env = Env(path: string, found: bool, memory: nat, childStack: Option<nat>, answer: int)

  datatype Event = TimerTick | SystemCall(id: nat, env: Env)

  function Result(s: State, v: nat): State
    requires |s.ctx.gpr| == 13
  {
    s.(ctx := SetResult(s.ctx, v))
  }

  /** SEM_INIT posts the difference to the present value, modulo 2^32; the guard
      on the number of units stands where one on the semaphore's index should. */
  function SemInit(s: State, id: nat, init: nat): State
    requires |s.pcb| == 32 && |s.sem| == 32 && s.current < 32 && |s.ctx.gpr| == 13
  {
    if init >= 32 then Result(s, 0)
    else if id >= 32 then Result(s, 1)
    else Result(Post(s, id, (init + WORD - s.sem[id] % WORD) % WORD), 1)
  }

  /** do_exec: start at a new address with an empty stack (4096 bytes). */
  function Exec(s: State): State
    requires s.current < |s.pcb| && |s.ctx.gpr| == 13
  {
    s.(ctx := s.ctx.(pc := s.ctx.gpr[0], sp := (s.pcb[s.current].stack + 4096) % WORD, cpsr := 0x50))
  }

  function Nice(s: State, pid: nat, newp: nat): State {
    if pid >= 32 || pid >= |s.pcb| || newp >= 0x8000_0000 then s
    else s.(pcb := s.pcb[pid := s.pcb[pid].(basePriority := newp)])
  }

  /** The call is one whose effect is defined: waiting for a semaphore that does
      not exist, reading or writing through a descriptor that does not exist makes
      the kernel read outside its arrays. */
  predicate Defined(s: State, id: nat)
    requires |s.ctx.gpr| == 13
  {
    id == 0xA || id == 1 || id == 2 ==> s.ctx.gpr[0] < 32
  }

  /** Calls on descriptors and pipes, and those the file system answers. */
  predicate OnFiles(id: nat) {
    id == 1 || id == 2 || 0xB <= id <= 0xE || 0x10 <= id <= 0x16 || id == 0x18
  }

  /** A C integer in a register. */
  function Word(x: int): nat { x % WORD }

  /** WRITE, READ, OPEN, CLOSE, FD_SWAP, PIPE, and calls that only return a result:
      GETWD true, the others the file system's answer. */
  function FileCall(s: State, id: nat, env: Env): State
    requires s.current < |s.pcb| && |s.ctx.gpr| == 13
  {
    var a, b, fdt := s.ctx.gpr[0], s.ctx.gpr[1], s.pcb[s.current].fdt;
    if id == 1 || id == 2 then
      var (t, r) := TransferCall(s, a, id == 1, s.ctx.gpr[2], env.answer);
      Result(t, Word(r))
    else if id == 0xB then
      var (t, r) := OpenCall(s, b % 256, env.path, env.found, env.memory);
      Result(t, Word(r))
    else if id == 0xC then Result(CloseCall(s, a), if a < 32 && a < |fdt| && fdt[a] != -1 then 1 else 0)
    else if id == 0xD then Result(SwapCall(s, a, b), if a < 32 && b < 32 then 1 else 0)
    else if id == 0xE then PipeCall(s, env.memory)
    else Result(s, if id == 0x18 then 1 else Word(env.answer))
  }

  /** hilevel_handler_svc. */
  function Call(s: State, id: nat, env: Env): State
    requires |s.pcb| == 32 && |s.sem| == 32 && s.current < 32 && |s.ctx.gpr| == 13
    requires Exists(s, s.current) && Defined(s, id)
  {
    var a, b := s.ctx.gpr[0], s.ctx.gpr[1];
    if id == 0 then Next(s, Ready)
    else if id == 3 then Fork(s, env.childStack)
    else if id == 4 then Exit(s)
    else if id == 5 then Exec(s)
    else if id == 6 then Kill(s, a)
    else if id == 7 then Nice(s, a, b)
    else if id == 8 then SemInit(s, a, b)
    else if id == 9 then Post(s, a, b)
    else if id == 0xA then Wait(s, a, b)
    else if OnFiles(id) then FileCall(s, id, env)
    else if id == 0xF then Result(Exec(s), b)
    else s
  }

  /** When a call leaves exactly one process running: a process that exits or has
      to wait needs another one to hand over to, must not kill itself, and needs
      memory for the stack of a child it forks. */
  ghost predicate Safe(s: State, id: nat, env: Env)
    requires |s.pcb| == 32 && |s.sem| == 32 && |s.ctx.gpr| == 13 && Defined(s, id)
  {
    && (id == 3 ==> HasStack(s, env.childStack))
    && (id == 4 ==> OtherRunnable(s))
    && (id == 6 ==> s.ctx.gpr[0] != s.current)
    && (id == 0xA ==> s.sem[s.ctx.gpr[0]] >= s.ctx.gpr[1] || OtherRunnable(s))
  }

  /** Exactly the safe calls keep the kernel's invariant; the registers of every
      process other than the caller stay as they are, saved or not. */
  lemma CallGood(s: State, id: nat, env: Env)
    requires Good(s) && RegistersOk(s) && Defined(s, id) && StackOk(env.childStack)
    ensures Good(Call(s, id, env)) <==> Safe(s, id, env)
    ensures RegistersOk(Call(s, id, env))
    ensures forall p :: 0 <= p < 32 && p != s.current && Exists(s, p) ==>
              Registers(Call(s, id, env), p) == Registers(s, p)
  {
    hide Next, Fork, Exit, Kill, Post, Wait, FileCall, SemInit, Exec, Nice, CanRun, Good, RegistersOk, Registers,
         OtherRunnable;
    Sizes(s);
    var a, b := s.ctx.gpr[0], s.ctx.gpr[1];
    if id == 0 {
      NextGood(s, Ready);
    } else if id == 3 {
      ForkGood(s, env.childStack);
      ForkRegisters(s, env.childStack);
    } else if id == 4 {
      ExitGood(s);
    } else if id == 6 {
      KillGood(s, a);
    } else if id == 8 {
      SemInitGood(s, a, b);
    } else if id == 9 {
      PostGood(s, a, b);
    } else if id == 0xA {
      WaitGood(s, a, b);
    } else if OnFiles(id) {
      FileCallOnly(s, id, env);
      FilesOnlyGood(s, FileCall(s, id, env));
    } else {
      PlainGood(s, a, b);
    }
  }

  lemma PlainGood(s: State, a: nat, b: nat)
    requires Good(s) && RegistersOk(s) && b < WORD
    ensures Good(Exec(s)) && RegistersOk(Exec(s)) && Good(Result(Exec(s), b)) && RegistersOk(Result(Exec(s), b))
    ensures Good(Nice(s, a, b)) && RegistersOk(Nice(s, a, b))
    ensures forall p :: 0 <= p < 32 && p != s.current ==>
              && Registers(Exec(s), p) == Registers(s, p) && Registers(Result(Exec(s), b), p) == Registers(s, p)
              && Registers(Nice(s, a, b), p) == Registers(s, p)
  {
    hide Bit;
  }

  lemma SemInitGood(s: State, id: nat, init: nat)
    requires Good(s) && RegistersOk(s)
    ensures Good(SemInit(s, id, init)) && RegistersOk(SemInit(s, id, init))
    ensures forall p :: 0 <= p < 32 && p != s.current ==> Registers(SemInit(s, id, init), p) == Registers(s, p)
  {
    hide Post, Bit;
    if init < 32 && id < 32 { PostGood(s, id, (init + WORD - s.sem[id] % WORD) % WORD); }
  }

  /** Nothing but descriptors, the global table, pipes and the caller's registers
      differs. */
  ghost predicate FilesOnly(s: State, t: State) {
    && |t.pcb| == |s.pcb| == 32 && |t.openft| == 64 && |t.pipes| == 32 && CtxOk(t.ctx)
    && t == s.(pcb := t.pcb, openft := t.openft, pipes := t.pipes, ctx := t.ctx)
    && forall p :: 0 <= p < 32 ==> |t.pcb[p].fdt| == 32 && t.pcb[p] == s.pcb[p].(fdt := t.pcb[p].fdt)
  }

  lemma FileCallOnly(s: State, id: nat, env: Env)
    requires Good(s) && RegistersOk(s) && OnFiles(id)
    ensures FilesOnly(s, FileCall(s, id, env))
  {
    hide Bit, Shl1, Others, Close, OpenSlot, OpenPipe, Transfer, FirstFreeFd;
    var a, b, f := s.ctx.gpr[0], s.ctx.gpr[1], FilesOf(s);
    if id == 1 || id == 2 {
      if a < 32 { TransferSize(s.openft, f.fdt[a], id == 1, s.ctx.gpr[2], env.answer); }
    } else if id == 0xB {
      OpenSlotSize(s.openft, b % 256, env.path, env.found, env.memory);
    } else if id == 0xE {
      OpenPipeSize(f, env.memory);
    }
  }

  lemma FilesOnlyGood(s: State, t: State)
    requires Good(s) && RegistersOk(s) && FilesOnly(s, t)
    ensures Good(t) && RegistersOk(t)
    ensures forall p :: 0 <= p < 32 && p != s.current ==> Registers(t, p) == Registers(s, p)
  {
    hide Bit, Shl1;
  }

  lemma Sizes(s: State)
    requires Good(s) && RegistersOk(s)
    ensures |s.pcb| == 32 && |s.openft| == 64 && s.current < 32 && |s.ctx.gpr| == 13 && |s.pcb[s.current].fdt| == 32
    ensures |s.sem| == 32 && Exists(s, s.current) && s.ctx.gpr[1] < WORD && s.pcb[s.current].pid == s.current
    ensures s.pcb[s.current].status == Executing && Shaped(s) && Others(s)
  {
  }

  lemma OpenSlotSize(openft: seq<FileSlot>, flags: nat, path: string, found: bool, memory: nat)
    ensures |OpenSlot(openft, flags, path, found, memory).0| == |openft|
  {
  }

  lemma TransferSize(openft: seq<FileSlot>, g: int, write: bool, n: int, answer: int)
    ensures |Transfer(openft, g, write, n, answer).0| == |openft|
  {
  }

  lemma OpenPipeSize(f: Files, memory: nat)
    ensures var r := OpenPipe(f, memory); |r.fdt| == |f.fdt| && |r.openft| == |f.openft| && |r.pipes| == |f.pipes|
  {
  }

  /** The same processes with the same descriptors, over the same table. */
  ghost predicate SameFiles(s: State, t: State) {
    && |t.pcb| == |s.pcb| && t.alloc == s.alloc && t.openft == s.openft
    && forall p :: 0 <= p < |s.pcb| ==> t.pcb[p].fdt == s.pcb[p].fdt
  }

  lemma SameCounts(s: State, t: State, exact: bool)
    requires FilesOk(s, exact) && SameFiles(s, t) && Shaped(t)
    ensures FilesOk(t, exact)
  {
    forall g | 0 <= g < 64 ensures Refs(t, g) == Refs(s, g) { RefsChange(s, t, 0, g, 0); }
    forall p | 0 <= p < 32 && Bit(t.alloc, p) ensures NamesUsed(t.pcb[p].fdt, t.openft) {
      assert NamesUsed(s.pcb[p].fdt, s.openft);
    }
  }

  lemma SemaphoreFiles(s: State, id: nat, x: nat)
    requires Good(s) && RegistersOk(s)
    ensures SameFiles(s, Post(s, id, x)) && Shaped(Post(s, id, x))
    ensures id < 32 ==> SameFiles(s, Take(s, id, x)) && Shaped(Take(s, id, x)) && Others(Take(s, id, x))
  {
    hide Bit, Slot, Shl1, Waiter;
  }

  lemma WaitFiles(s: State, id: nat, x: nat)
    requires Good(s) && RegistersOk(s) && id < 32
    ensures SameFiles(s, Wait(s, id, x)) && Shaped(Wait(s, id, x))
  {
    hide Bit, Slot, Shl1, Next, Take, Post;
    SemaphoreFiles(s, id, x);
    TakeCurrent(s, id, x);
    if s.sem[id] < x { NextKeeps(Take(s, id, x), Waiting); }
  }

  lemma TakeCurrent(s: State, id: nat, x: nat)
    requires Good(s) && id < 32
    ensures Take(s, id, x).current == s.current && Take(s, id, x).pcb[s.current].pid == s.current
  {
  }

  lemma InitFiles(s: State, id: nat, init: nat)
    requires Good(s) && RegistersOk(s)
    ensures SameFiles(s, SemInit(s, id, init)) && Shaped(SemInit(s, id, init))
  {
    hide Bit, Shl1, Post;
    if id < 32 && init < 32 { SemaphoreFiles(s, id, (init + WORD - s.sem[id] % WORD) % WORD); }
  }

  /** Descriptor counts across any call: exact ones stay exact unless a process is killed. */
  lemma CallFiles(s: State, id: nat, env: Env, exact: bool)
    requires Good(s) && RegistersOk(s) && Defined(s, id) && FilesOk(s, exact)
    requires id == 3 ==> HasStack(s, env.childStack)
    ensures FilesOk(Call(s, id, env), exact && id != 6)
  {
    hide Next, Fork, Exit, Kill, Post, Wait, SemInit, Exec, Nice, FileCall, FilesOk, Good, RegistersOk, HasStack;
    Sizes(s);
    if id == 3 {
      ForkCounts(s, env.childStack, exact);
    } else if id == 4 {
      ExitCounts(s, exact);
    } else if id == 6 {
      KillCounts(s, s.ctx.gpr[0], exact);
    } else if OnFiles(id) {
      FileCallCounts(s, id, env, exact);
    } else {
      PlainFiles(s, id, env);
      SameCounts(s, Call(s, id, env), exact);
    }
  }

  lemma ExitCounts(s: State, exact: bool)
    requires Good(s) && RegistersOk(s) && FilesOk(s, exact)
    ensures FilesOk(Exit(s), exact)
  {
    hide Next, Leave, FilesOk;
    LeaveCounts(s, exact);
    LeaveKeeps(s);
    NextKeeps(Leave(s), Terminated);
    SameCounts(Leave(s), Exit(s), exact);
  }

  /** Calls that are not about descriptors leave them alone. */
  lemma PlainFiles(s: State, id: nat, env: Env)
    requires Good(s) && RegistersOk(s) && Defined(s, id) && id != 3 && id != 4 && id != 6 && !OnFiles(id)
    ensures SameFiles(s, Call(s, id, env)) && Shaped(Call(s, id, env))
  {
    hide Next, Post, Wait, SemInit, Bit, Shl1, Others;
    Sizes(s);
    var a, b := s.ctx.gpr[0], s.ctx.gpr[1];
    if id == 0 {
      NextKeeps(s, Ready);
    } else if id == 8 {
      InitFiles(s, a, b);
    } else if id == 9 {
      SemaphoreFiles(s, a, b);
    } else if id == 0xA {
      WaitFiles(s, a, b);
    }
  }

  lemma FileCallCounts(s: State, id: nat, env: Env, exact: bool)
    requires Good(s) && RegistersOk(s) && FilesOk(s, exact) && OnFiles(id)
    ensures FilesOk(FileCall(s, id, env), exact)
  {
    hide CloseCall, OpenCall, SwapCall, PipeCall, TransferCall, TablesOk, Counted, Good, RegistersOk;
    Sizes(s);
    var a, b := s.ctx.gpr[0], s.ctx.gpr[1];
    var t := FileCall(s, id, env);
    FileCallOnly(s, id, env);
    FilesOnlyGood(s, t);
    Sizes(t);
    if id == 1 || id == 2 {
      TransferCounts(s, a, id == 1, s.ctx.gpr[2], env.answer, exact);
      SameCounts(TransferCall(s, a, id == 1, s.ctx.gpr[2], env.answer).0, t, exact);
    } else if id == 0xB {
      OpenCounts(s, b % 256, env.path, env.found, env.memory, exact);
      SameCounts(OpenCall(s, b % 256, env.path, env.found, env.memory).0, t, exact);
    } else if id == 0xC {
      CloseKeeps(s, a, exact);
      SameCounts(CloseCall(s, a), t, exact);
    } else if id == 0xD {
      SwapCounts(s, a, b, exact);
      SameCounts(SwapCall(s, a, b), t, exact);
    } else if id == 0xE {
      PipeCounts(s, env.memory, exact);
    } else {
      SameCounts(s, t, exact);
    }
  }

  // -------------------------------------------------------------------- runs

  predicate Possible(s: State, e: Event) {
    && |s.pcb| == 32 && |s.sem| == 32 && s.current < 32 && |s.ctx.gpr| == 13 && Exists(s, s.current)
    && (e.SystemCall? ==> Defined(s, e.id) && StackOk(e.env.childStack))
  }

  function Step(s: State, e: Event): State
    requires Possible(s, e)
  {
    match e
    case TimerTick => Tick(s)
    case SystemCall(id, env) => Call(s, id, env)
  }

  /** Every event of the run is possible where it happens, and every call safe. */
  ghost predicate SafeRun(s: State, es: seq<Event>)
    decreases |es|
  {
    || es == []
    || (&& Possible(s, es[0]) && (es[0].SystemCall? ==> Safe(s, es[0].id, es[0].env))
        && SafeRun(Step(s, es[0]), es[1..]))
  }

  function Run(s: State, es: seq<Event>): State
    decreases |es|
  {
    if es == [] || !Possible(s, es[0]) then s else Run(Step(s, es[0]), es[1..])
  }

  /** A run is one event after the other. */
  lemma {:induction false} RunAppend(s: State, es: seq<Event>, e: Event)
    requires SafeRun(s, es) && Possible(Run(s, es), e)
    ensures Run(s, es + [e]) == Step(Run(s, es), e)
    decreases |es|
  {
    hide Step, Possible, Safe;
    if es == [] {
      assert (es + [e])[1..] == [];
    } else {
      assert (es + [e])[1..] == es[1..] + [e];
      RunAppend(Step(s, es[0]), es[1..], e);
    }
  }

  predicate Kills(es: seq<Event>) { exists i :: 0 <= i < |es| && es[i].SystemCall? && es[i].id == 6 }

  /** In every state a safe run reaches, one process is executing and it is the
      current one, and the reference counts are right: exactly so without kills. */
  lemma {:induction false} RunGood(s: State, es: seq<Event>, exact: bool)
    requires Good(s) && RegistersOk(s) && FilesOk(s, exact) && SafeRun(s, es)
    ensures Good(Run(s, es)) && RegistersOk(Run(s, es)) && FilesOk(Run(s, es), exact && !Kills(es))
    decreases |es|
  {
    hide Good, RegistersOk, FilesOk, Call, Tick, HasStack;
    if es != [] {
      var e, t := es[0], Step(s, es[0]);
      match e {
        case TimerTick =>
          TickGood(s);
          TickFiles(s, exact);
          RunGood(t, es[1..], exact);
        case SystemCall(id, env) =>
          CallGood(s, id, env);
          CallFiles(s, id, env, exact);
          RunGood(t, es[1..], exact && id != 6);
      }
      Weaker(Run(t, es[1..]), exact && !(e.SystemCall? && e.id == 6) && !Kills(es[1..]), exact && !Kills(es));
    }
  }

  lemma Weaker(s: State, exact: bool, exact': bool)
    requires FilesOk(s, exact) && (exact' ==> exact)
    ensures FilesOk(s, exact')
  {
  }

  lemma TickFiles(s: State, exact: bool)
    requires Good(s) && FilesOk(s, exact)
    ensures FilesOk(Tick(s), exact)
  {
    hide Next, Refs, NamesUsed, Bit;
    NextKeeps(s, Ready);
    SameCounts(s, Tick(s), exact);
  }

  /** Process p is live and not executing from the first state of the run to the
      last but one. */
  ghost predicate Away(s: State, es: seq<Event>, p: nat)
    decreases |es|
  {
    es == [] || (Possible(s, es[0]) && Exists(s, p) && s.current != p && Away(Step(s, es[0]), es[1..], p))
  }

  /** A process that gets the processor back finds the registers it left with. */
  lemma {:induction false} AwayKeepsRegisters(s: State, es: seq<Event>, p: nat)
    requires Good(s) && RegistersOk(s) && SafeRun(s, es) && Away(s, es, p) && p < 32
    ensures |Run(s, es).pcb| == 32 && Registers(Run(s, es), p) == Registers(s, p)
    decreases |es|
  {
    hide Good, RegistersOk, Call, Tick, Registers, Safe;
    Sizes(s);
    if es != [] {
      var e := es[0];
      match e {
        case TimerTick => TickGood(s);
        case SystemCall(id, env) => CallGood(s, id, env);
      }
      AwayKeepsRegisters(Step(s, e), es[1..], p);
    }
  }

  // ------------------------------------------------------- slots used for good

  predicate PipeEnd(slot: FileSlot) { slot.Used? && slot.fd.kind == Pipe }

  /** A slot that a failed open has used up stays so, and a pipe's end stays one. */
  ghost predicate Lasting(a: seq<FileSlot>, b: seq<FileSlot>) {
    && |a| == |b|
    && forall g :: 0 <= g < |a| ==> (a[g].Leaked? ==> b[g].Leaked?) && (PipeEnd(a[g]) ==> PipeEnd(b[g]))
  }

  lemma {:induction false} CloseLasting(fdt: seq<int>, openft: seq<FileSlot>, fd: nat)
    requires fd <= |fdt|
    ensures Lasting(openft, CloseFrom(fdt, openft, fd).1)
    decreases |fdt| - fd
  {
    if fd < |fdt| {
      var (fdt', openft') := Close(fdt, openft, fd);
      OneCloseLasting(fdt, openft, fd);
      CloseLasting(fdt', openft', fd + 1);
    }
  }

  lemma {:induction false} ShareLasting(fdt: seq<int>, openft: seq<FileSlot>, i: nat)
    requires i <= |fdt|
    ensures Lasting(openft, ShareFrom(openft, fdt, i))
    decreases |fdt| - i
  {
    if i < |fdt| {
      assert Lasting(openft, Shared(openft, fdt[i]));
      ShareLasting(fdt, Shared(openft, fdt[i]), i + 1);
    }
  }

  lemma TransferLasting(openft: seq<FileSlot>, g: int, write: bool, n: int, answer: int)
    ensures Lasting(openft, Transfer(openft, g, write, n, answer).0)
  {
  }

  lemma OpenLasting(openft: seq<FileSlot>, flags: nat, path: string, found: bool, memory: nat)
    ensures Lasting(openft, OpenSlot(openft, flags, path, found, memory).0)
  {
  }

  lemma OneCloseLasting(fdt: seq<int>, openft: seq<FileSlot>, fd: nat)
    ensures Lasting(openft, Close(fdt, openft, fd).1)
  {
  }

  lemma PipeLasting(f: Files, memory: nat)
    ensures Lasting(f.openft, OpenPipe(f, memory).openft)
  {
    hide FirstFreeFd, FirstUnused;
  }

  lemma FileCallLasting(s: State, id: nat, env: Env)
    requires s.current < |s.pcb| && |s.ctx.gpr| == 13
    ensures Lasting(s.openft, FileCall(s, id, env).openft)
  {
    hide Transfer, OpenSlot, Close, OpenPipe, FirstFreeFd;
    var a, b, f := s.ctx.gpr[0], s.ctx.gpr[1], FilesOf(s);
    if id == 1 || id == 2 {
      if a < |f.fdt| { TransferLasting(s.openft, f.fdt[a], id == 1, s.ctx.gpr[2], env.answer); }
    } else if id == 0xB {
      OpenLasting(s.openft, b % 256, env.path, env.found, env.memory);
    } else if id == 0xC {
      OneCloseLasting(f.fdt, s.openft, a);
    } else if id == 0xE {
      PipeLasting(f, env.memory);
    }
  }

  lemma StepLasting(s: State, e: Event)
    requires Possible(s, e)
    ensures Lasting(s.openft, Step(s, e).openft)
  {
    hide FileCall, CloseFrom, ShareFrom, Waiter, Ahead, Bit;
    if e.SystemCall? {
      if e.id == 3 {
        ShareLasting(s.pcb[s.current].fdt, s.openft, 0);
      } else if e.id == 4 {
        CloseLasting(s.pcb[s.current].fdt, s.openft, 0);
      } else if OnFiles(e.id) {
        FileCallLasting(s, e.id, e.env);
      }
    }
  }

  /** Over any run, a leaked slot is never free again, and neither is a pipe's end:
      the last close of a pipe leaves both its slots taken. */
  lemma {:induction false} RunLasting(s: State, es: seq<Event>)
    ensures Lasting(s.openft, Run(s, es).openft)
    decreases |es|
  {
    hide Step;
    if es != [] && Possible(s, es[0]) {
      StepLasting(s, es[0]);
      RunLasting(Step(s, es[0]), es[1..]);
    }
  }
}
