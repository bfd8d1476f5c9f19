/** The handlers of kernel/hilevel.c over the kernel's global arrays.  Every
    handler is proved to take the step its specification function takes. */
module KernelHandlers {
  import opened Common
  import opened Descriptors
  import S = KernelState
  import opened KernelState
  import D = DescriptorCounts
  import C = KernelCalls
  import A = Ageing

  class Kernel {
    const pcb: array<Pcb>
    const sem: array<nat>
    const openft: array<FileSlot>
    const pipes: array<bool>
    var alloc: nat
    var current: nat
    var runtime: int
    // Registers saved on entry, restored on return.
    var ctx: Ctx

    /** hilevel_handler_rst: the boot program becomes process 0, and its first three
        descriptors are the serial line's. */
    constructor (entry: nat, stack: nat)
      requires stack + 4096 < WORD
      ensures Valid() && D.FilesOk(Abs(), true)
      ensures Live(alloc) == {0} && current == 0 && ctx.pc == entry && ctx.sp == stack + 4096
      ensures ctx.cpsr == 0x50 && runtime == 0 && pcb[0].ctx == ctx
      ensures pcb[0].basePriority == 5 && pcb[0].age == 0 && pcb[0].stack == stack
      ensures forall fd :: 0 <= fd < 32 ==> pcb[0].fdt[fd] == if fd < 3 then fd else -1
      ensures forall g :: 3 <= g < 64 ==> openft[g] == Free
      ensures forall g :: 0 <= g < 3 ==>
                && openft[g].Used? && openft[g].fd.kind == Uart
                && (Reads(openft[g].fd.mode) <==> g == 0) && (Writes(openft[g].fd.mode) <==> g != 0)
      ensures forall i :: 0 <= i < 32 ==> sem[i] == 0 && !pipes[i]
    {
      hide Good, RegistersOk, D.FilesOk, Bit, Shl1;
      var zero := Ctx(0, 0, Zeroes(13), 0, 0);
      var unused := Pcb(0, Created, 0, 0, None, 0, Zeroes(32), zero);
      var regs := zero.(cpsr := 0x50, pc := entry, sp := stack + 4096);
      var boot := Pcb(0, Executing, 5, 0, None, stack, BootFdt(), regs);
      pcb := new Pcb[32](i => if i == 0 then boot else unused);
      sem := new nat[32](_ => 0);
      openft := new FileSlot[64](i => BootSlot(i));
      pipes := new bool[32](_ => false);
      alloc, current, runtime, ctx := 1, 0, 0, regs;
      new;
      FirstBit();
      BootGood(Abs(), boot, unused);
      BootFiles(Abs());
    }

    ghost function Abs(): State
      reads this, pcb, sem, openft, pipes
    {
      State(pcb[..], alloc, current, runtime, sem[..], openft[..], pipes[..], ctx)
    }

    ghost predicate Valid()
      reads this, pcb, sem, openft, pipes
    {
      Good(Abs()) && RegistersOk(Abs())
    }

    /** The arrays have the sizes their indices are computed for. */
    ghost predicate Sized()
      reads this, pcb, sem, openft, pipes
    {
      && pcb.Length == 32 && sem.Length == 32 && openft.Length == 64 && pipes.Length == 32
      && current < 32 && |ctx.gpr| == 13
      && forall i :: 0 <= i < 32 ==> |pcb[i].fdt| == 32
    }

    /** A live process that waits has said for what. */
    ghost predicate WaitersKnown()
      requires Sized()
      reads this, pcb, sem, openft, pipes
    {
      forall i :: 0 <= i < 32 && i != current && ProcessExists(i) && pcb[i].status == Waiting ==> pcb[i].waiting.Some?
    }

    predicate ProcessExists(pid: nat)
      reads this
    {
      Bit(alloc, pid)
    }

    predicate ProcessCanRun(pid: nat)
      requires pid < pcb.Length
      reads this, pcb
    {
      ProcessExists(pid) && (pcb[pid].status == Created || pcb[pid].status == Ready)
    }

    method ContextSwitch(to: nat, fromStat: Status)
      requires Sized() && to < 32
      modifies this`ctx, this`current, pcb
      ensures Abs() == Switch(old(Abs()), to, fromStat)
    {
      pcb[current] := pcb[current].(ctx := ctx, status := fromStat);
      ctx := pcb[to].ctx;
      pcb[to] := pcb[to].(status := Executing);
      current := pcb[to].pid;
    }

    /** The scanning loop of next, from behind the current process. */
    method ScanTable() returns (i: nat)
      requires Sized()
      ensures i == NextPid(Abs())
    {
      hide Bit, Slot, Distance, Ahead;
      ghost var s := Abs();
      ghost var d := 1;
      SlotOnce(current, 1);
      i := (current + 1) % 32;
      while !ProcessCanRun(i) && i != current
        invariant i < 32 && 1 <= d <= 32 && i == Slot(current, d)
        invariant Ahead(s, 1) == Ahead(s, d)
        decreases 32 - d
      {
        SlotOnce(current, d);
        AheadTurn(s, d);
        i := (i + 1) % 32;
        d := d + 1;
      }
      SlotOnce(current, d);
      AheadTurn(s, d);
    }

    /** next: hand over to the process the scan finds. */
    method Next(curStat: Status)
      requires Sized()
      modifies this`ctx, this`current, this`runtime, pcb
      ensures Abs() == S.Next(old(Abs()), curStat)
    {
      hide Ahead, Slot;
      runtime := 0;
      var i := ScanTable();
      SameNext(old(Abs()));
      if i != current { ContextSwitch(i, curStat); }
    }

    /** schedule, at a timer tick. */
    method Schedule()
      requires Sized()
      modifies this`ctx, this`current, this`runtime, pcb
      ensures Abs() == Tick(old(Abs()))
    {
      hide NextPid, Switch;
      if runtime >= pcb[current].basePriority { Next(Ready); }
      runtime := runtime + 1;
    }

    /** The scanning loop of schedule under SCHEDULE_AGES. */
    method AgeTable() returns (best: nat)
      requires Sized()
      modifies pcb
      ensures Sized() && best < 32 && (Abs(), best) == A.AgeScan(old(Abs()), 1, current)
    {
      hide Bit, Slot, A.AgeScan;
      ghost var s := Abs();
      best := current;
      ghost var d := 1;
      SlotOnce(current, 1);
      var i := (current + 1) % 32;
      while i != current
        invariant i < 32 && best < 32 && 1 <= d <= 32 && i == Slot(current, d)
        invariant Sized() && A.AgeScan(Abs(), d, best) == A.AgeScan(s, 1, current)
        decreases 32 - d
      {
        SlotOnce(current, d);
        A.ScanTurn(Abs(), d, best);
        ghost var now := Abs();
        if ProcessCanRun(i) {
          pcb[i] := pcb[i].(age := pcb[i].age + 1);
          assert Abs() == A.Older(now, i);
          if pcb[i].basePriority + pcb[i].age > pcb[best].basePriority + pcb[best].age { best := i; }
        }
        i := (i + 1) % 32;
        d := d + 1;
      }
      SlotOnce(current, d);
      A.ScanTurn(Abs(), d, best);
    }

    /** schedule, at a timer tick, when the kernel is built with SCHEDULE_AGES. */
    method ScheduleAges()
      requires Sized()
      modifies this`ctx, this`current, pcb
      ensures Abs() == A.AgeTick(old(Abs()))
    {
      hide A.AgeScan, Switch;
      var best := AgeTable();
      if best != current {
        pcb[best] := pcb[best].(age := 0);
        ContextSwitch(best, Ready);
      }
    }

    /** new_pcb_entry: the index of the first free entry, now allocated, or 32. */
    method NewPcbEntry() returns (i: nat)
      modifies this`alloc
      ensures i == FirstClear(old(alloc), 0)
      ensures alloc == if i < 32 then old(alloc) + Shl1(i) else old(alloc)
    {
      i := 0;
      while i < 32 && ProcessExists(i)
        invariant i <= 32 && FirstClear(alloc, 0) == FirstClear(alloc, i)
      {
        i := i + 1;
      }
      if i != 32 { alloc := alloc + Shl1(i); }
    }

    /** The loop of do_fork over the parent's descriptors. */
    method ShareDescriptors(fdt: seq<int>)
      requires |fdt| == 32 && openft.Length == 64 && NamesUsed(fdt, openft[..])
      modifies openft
      ensures openft[..] == ShareFrom(old(openft[..]), fdt, 0)
    {
      var i := 0;
      while i < 32
        invariant i <= 32 && NamesUsed(fdt, openft[..])
        invariant ShareFrom(openft[..], fdt, i) == ShareFrom(old(openft[..]), fdt, 0)
      {
        if fdt[i] != -1 {
          var fde := openft[fdt[i]].fd;
          openft[fdt[i]] := Used(fde.(openCount := fde.openCount + 1));
        }
        i := i + 1;
      }
    }

    /** do_fork. */
    method DoFork(childStack: Option<nat>)
      requires Sized() && NamesUsed(pcb[current].fdt, openft[..]) && ProcessExists(current)
      modifies this`ctx, this`alloc, pcb, openft
      ensures Abs() == Fork(old(Abs()), childStack)
    {
      hide Bit, Shl1, ShareFrom, NamesUsed, FirstClear;
      pcb[current] := pcb[current].(ctx := ctx);
      var c := NewPcbEntry();
      if c == 32 {
        ctx := SetResult(ctx, WORD - 1);
        return;
      }
      pcb[c] := pcb[current];
      if childStack.None? {
        ctx := SetResult(ctx, WORD - 2);
        return;
      }
      var stack := childStack.value;
      var sp := (ctx.sp + WORD + stack % WORD - pcb[current].stack % WORD) % WORD;
      pcb[c] := pcb[c].(pid := c, status := Created);
      pcb[c] := pcb[c].(ctx := pcb[c].ctx.(sp := sp), stack := stack);
      pcb[c] := pcb[c].(ctx := SetResult(pcb[c].ctx, 0));
      ctx := SetResult(ctx, c);
      ShareDescriptors(pcb[current].fdt);
    }

    /** do_close. */
    method DoClose(fd: nat) returns (ok: bool)
      requires Sized() && NamesUsed(pcb[current].fdt, openft[..])
      modifies pcb, openft
      ensures Abs() == D.CloseCall(old(Abs()), fd)
      ensures ok <==> fd < 32 && old(pcb[current].fdt)[fd] != -1
    {
      ghost var s := Abs();
      if fd >= 32 {
        assert D.CloseCall(s, fd).pcb == s.pcb;
        return false;
      }
      var i := pcb[current].fdt[fd];
      if i == -1 {
        assert D.CloseCall(s, fd).pcb == s.pcb;
        return false;
      }
      pcb[current] := pcb[current].(fdt := pcb[current].fdt[fd := -1]);
      var fde := openft[i].fd;
      fde := fde.(openCount := fde.openCount - 1);
      openft[i] := Used(fde);
      if fde.openCount > 0 { return true; }
      if fde.kind == File { openft[i] := Free; }
      ok := true;
    }

    /** do_exit up to the point where an empty table halts the machine. */
    method DoExit() returns (halted: bool)
      requires Sized() && ProcessExists(current) && alloc < Shl1(32) && D.FilesOk(Abs(), false)
      modifies this`alloc, pcb, openft
      ensures Abs() == Leave(old(Abs())) && Sized()
      ensures halted <==> Live(alloc) == {}
    {
      hide Bit, Shl1, Close, NamesUsed, D.Counted;
      ghost var s := Abs();
      pcb[current] := pcb[current].(status := Terminated, basePriority := -1);
      C.SameCounts(s, Abs(), false);
      ghost var p := pcb[current];
      var i := 0;
      while i < 32
        invariant i <= 32 && Sized() && D.FilesOk(Abs(), false)
        invariant pcb[..] == s.pcb[current := p.(fdt := pcb[current].fdt)]
        invariant CloseFrom(pcb[current].fdt, openft[..], i) == CloseFrom(p.fdt, s.openft, 0)
        modifies pcb, openft
      {
        D.CloseKeeps(Abs(), i, false);
        ghost var now := Abs();
        if pcb[current].fdt[i] != -1 { var ok := DoClose(i); }
        SameClosed(now, Abs(), i);
        i := i + 1;
      }
      RemoveLive(s, current);
      alloc := alloc - Shl1(current);
      EmptyWord(alloc);
      halted := alloc == 0;
    }

    /** The system call EXIT. */
    method SvcExit() returns (halted: bool)
      requires Sized() && ProcessExists(current) && alloc < Shl1(32) && D.FilesOk(Abs(), false)
      modifies this`ctx, this`current, this`runtime, this`alloc, pcb, openft
      ensures halted <==> Live(old(alloc)) == {old(current)}
      ensures !halted ==> Abs() == Exit(old(Abs()))
    {
      hide Leave, S.Next;
      ghost var s := Abs();
      halted := DoExit();
      LeftOver(s);
      if !halted { Next(Terminated); }
    }

    /** do_kill. */
    method DoKill(pid: nat) returns (halted: bool)
      requires alloc < Shl1(32)
      modifies this`alloc
      ensures Abs() == Kill(old(Abs()), pid)
      ensures halted <==> pid < 32 && Live(old(alloc)) - {pid} == {}
    {
      ghost var s := Abs();
      EmptyWord(alloc);
      if pid >= 32 { return false; }
      if ProcessExists(pid) {
        RemoveLive(s, pid);
        alloc := alloc - Shl1(pid);
        EmptyWord(alloc);
      }
      halted := alloc == 0;
    }

    /** The scanning loop of do_sem_post, from behind the current process on. */
    method FindWaiter(id: nat, x: nat) returns (i: nat)
      requires Sized() && WaitersKnown()
      ensures i == Slot(current, Waiter(Abs(), id, x, 1))
      ensures i == current <==> Waiter(Abs(), id, x, 1) == 32
    {
      hide Bit, Slot, Waiter;
      ghost var s := Abs();
      ghost var d := 1;
      SlotOnce(current, 1);
      i := (current + 1) % 32;
      while i != current
        invariant i < 32 && 1 <= d <= 32 && i == Slot(current, d)
        invariant Waiter(s, id, x, 1) == Waiter(s, id, x, d)
        decreases 32 - d
      {
        SlotOnce(current, d);
        WaiterTurn(s, id, x, d);
        if && ProcessExists(i) && pcb[i].status == Waiting
           && pcb[i].waiting.value.semId == id && pcb[i].waiting.value.x <= x {
          return;
        }
        i := (i + 1) % 32;
        d := d + 1;
      }
      SlotOnce(current, d);
      WaiterTurn(s, id, x, d);
    }

    /** do_sem_post: hand units to the waiter the scan finds, if it finds one. */
    method DoSemPost(id: nat, x: nat)
      requires Sized() && WaitersKnown()
      modifies pcb, sem
      ensures Abs() == Post(old(Abs()), id, x)
    {
      hide Bit, Slot, Waiter;
      if id >= 32 || x == 0 { return; }
      var i := FindWaiter(id, x);
      if i != current {
        sem[id] := (sem[id] + (x - pcb[i].waiting.value.x)) % WORD;
        pcb[i] := pcb[i].(status := Ready);
        return;
      }
      sem[id] := (sem[id] + x) % WORD;
    }

    /** do_sem_wait on a semaphore that exists. */
    method DoSemWait(id: nat, x: nat) returns (taken: bool)
      requires Sized() && id < 32
      modifies pcb, sem
      ensures Abs() == Take(old(Abs()), id, x) && (taken <==> old(sem[id]) >= x)
    {
      if sem[id] >= x {
        sem[id] := sem[id] - x;
        return true;
      }
      pcb[current] := pcb[current].(status := Waiting);
      pcb[current] := pcb[current].(waiting := Some(SemWait(id, x)));
      taken := false;
    }

    /** The system call SEM_WAIT. */
    method SvcSemWait()
      requires Sized() && ctx.gpr[0] < 32
      modifies this`ctx, this`current, this`runtime, pcb, sem
      ensures Abs() == Wait(old(Abs()), old(ctx.gpr[0]), old(ctx.gpr[1]))
    {
      hide S.Next;
      var taken := DoSemWait(ctx.gpr[0], ctx.gpr[1]);
      if taken { return; }
      Next(Waiting);
    }

    /** The system call SEM_INIT, by way of a post. */
    method SvcSemInit()
      requires Sized() && WaitersKnown()
      modifies this`ctx, pcb, sem
      ensures Abs() == C.SemInit(old(Abs()), old(ctx.gpr[0]), old(ctx.gpr[1]))
    {
      hide Post;
      var id, init := ctx.gpr[0], ctx.gpr[1];
      if init >= 32 {
        ctx := SetResult(ctx, 0);
        return;
      }
      // An index out of range is read past the array, but the post ignores it.
      if id < 32 { DoSemPost(id, (init + WORD - sem[id] % WORD) % WORD); }
      ctx := SetResult(ctx, 1);
    }

    /** The loops that look for an unused descriptor, slot or pipe. */
    method ScanFds(fdt: seq<int>, from: nat) returns (i: nat)
      requires from <= |fdt|
      ensures i == FirstFreeFd(fdt, from)
    {
      i := from;
      while i < |fdt| && fdt[i] != -1
        invariant i <= |fdt| && FirstFreeFd(fdt, from) == FirstFreeFd(fdt, i)
      {
        i := i + 1;
      }
    }

    method ScanSlots(from: nat) returns (i: nat)
      requires from <= openft.Length
      ensures i == FirstFreeSlot(openft[..], from)
    {
      i := from;
      while i < openft.Length && openft[i] != Free
        invariant i <= openft.Length && FirstFreeSlot(openft[..], from) == FirstFreeSlot(openft[..], i)
      {
        i := i + 1;
      }
    }

    method ScanPipes() returns (i: nat)
      ensures i == FirstUnused(pipes[..], 0)
    {
      i := 0;
      while i < pipes.Length && pipes[i]
        invariant i <= pipes.Length && FirstUnused(pipes[..], 0) == FirstUnused(pipes[..], i)
      {
        i := i + 1;
      }
    }

    /** The system call OPEN; env.found is the file system's answer. */
    method SvcOpen(env: C.Env)
      requires Sized()
      modifies this`ctx, pcb, openft
      ensures Abs() == C.FileCall(old(Abs()), 0xB, env)
    {
      ghost var s := Abs();
      var i := ScanFds(pcb[current].fdt, 0);
      if i == 32 {
        ctx := SetResult(ctx, WORD - 1);
        return;
      }
      var f := DoOpen(ctx.gpr[1] % 256, env.path, env.found, env.memory);
      if f != -1 {
        pcb[current] := pcb[current].(fdt := pcb[current].fdt[i := f]);
        ctx := SetResult(ctx, i);
      } else {
        ctx := SetResult(ctx, WORD - 1);
      }
    }

    /** do_open. */
    method DoOpen(flags: nat, path: string, found: bool, memory: nat) returns (f: int)
      requires openft.Length == 64
      modifies openft
      ensures (openft[..], f) == OpenSlot(old(openft[..]), flags, path, found, memory)
      ensures -1 <= f < 64
    {
      if flags == 0 { return -1; }
      var i := ScanSlots(0);
      if i == 64 || memory == 0 { return -1; }
      openft[i] := Leaked;
      if !found || memory == 1 { return -1; }
      openft[i] := Used(Fdte(File, Mode(flags), path, 0, 0, 1));
      assert openft[..] == old(openft[..])[i := Used(Fdte(File, Mode(flags), path, 0, 0, 1))];
      f := i;
    }

    /** The first half of do_pipe: whether there is room, and where. */
    method FindEnds() returns (found: bool, pindex: nat, rp: nat, wp: nat, rg: nat, wg: nat)
      requires Sized()
      ensures found <==> PipeRoom(D.FilesOf(Abs()))
      ensures found ==>
                && pindex == FirstUnused(pipes[..], 0)
                && rp == FirstFreeFd(pcb[current].fdt, 0) && wp == FirstFreeFd(pcb[current].fdt, rp + 1)
                && rg == FirstFreeSlot(openft[..], 0) && wg == FirstFreeSlot(openft[..], rg + 1)
    {
      hide FirstFreeFd, FirstFreeSlot, FirstUnused;
      found, pindex, rg, wg := false, 0, 0, 0;
      rp := ScanFds(pcb[current].fdt, 0);
      wp := rp + 1;
      if rp < 32 { wp := ScanFds(pcb[current].fdt, rp + 1); }
      if wp >= 32 { return; }
      pindex := ScanPipes();
      if pindex == 32 { return; }
      rg := ScanSlots(0);
      wg := rg + 1;
      if rg < 64 { wg := ScanSlots(rg + 1); }
      found := rg != 64 && wg != 64;
    }

    /** do_pipe. */
    method DoPipe(memory: nat) returns (ok: bool)
      requires Sized()
      modifies pcb, openft, pipes
      ensures Abs() == D.PipeCall(old(Abs()), memory)
      ensures ok <==> PipeRoom(D.FilesOf(old(Abs()))) && memory >= 3
    {
      hide FirstFreeFd, FirstFreeSlot, FirstUnused;
      ghost var s := Abs();
      assert D.WithFiles(s, s.pcb[current].fdt, s.openft) == s;
      var found, pindex, rp, wp, rg, wg := FindEnds();
      if !found || memory == 0 { return false; }
      assert PipeRoom(D.FilesOf(s));
      pipes[pindex] := true;
      if memory < 3 { return false; }
      EnterEnds(pindex, rp, wp, rg, wg);
      ok := true;
    }

    /** The two ends of a pipe go into the tables. */
    method EnterEnds(pindex: nat, rp: nat, wp: nat, rg: nat, wg: nat)
      requires Sized() && rp < wp < 32 && rg < wg < 64
      modifies pcb, openft
      ensures var s := old(Abs());
              var rend, wend := Fdte(Pipe, 1, "", pindex, wg, 1), Fdte(Pipe, 2, "", pindex, rg, 1);
              var ends := s.openft[rg := Used(rend)][wg := Used(wend)];
              Abs() == D.WithFiles(s, s.pcb[current].fdt[rp := rg][wp := wg], ends)
    {
      openft[rg] := Used(Fdte(Pipe, 1, "", pindex, wg, 1));
      openft[wg] := Used(Fdte(Pipe, 2, "", pindex, rg, 1));
      pcb[current] := pcb[current].(fdt := pcb[current].fdt[rp := rg]);
      pcb[current] := pcb[current].(fdt := pcb[current].fdt[wp := wg]);
    }

    /** The loop of do_read on the serial line, into `out`; `line` gives the
        characters that come.  The test behind a character assigns the end of line
        where it means to compare with it, so that the loop ends at the first
        character exactly if the end of line is not 0. */
    method ReadLine(out: array<nat>, nchars: int, line: nat -> nat, end: nat) returns (j: nat)
      requires nchars <= out.Length
      modifies out
      ensures j == if nchars <= 0 || end != 0 then 0 else nchars
      ensures end != 0 ==> out[..] == if nchars > 0 then old(out[..])[0 := 0] else old(out[..])
    {
      j := 0;
      while j < nchars
        invariant end != 0 ==> j == 0 && out[..] == old(out[..])
        invariant 0 < nchars ==> j <= nchars
        invariant nchars <= 0 ==> j == 0
      {
        out[j] := line(j);
        out[j] := end;
        if out[j] != 0 {
          out[j] := 0;
          break;
        }
        j := j + 1;
      }
    }

    /** do_write and do_read; `answer` is what the pipe or the file system returns. */
    method DoTransfer(fd: nat, write: bool, n: int, answer: int) returns (r: int)
      requires Sized() && fd < 32 && NamesUsed(pcb[current].fdt, openft[..])
      modifies openft
      ensures (Abs(), r) == D.TransferCall(old(Abs()), fd, write, n, answer)
    {
      var i := pcb[current].fdt[fd];
      if i == -1 { return -1; }
      var fde := openft[i].fd;
      if fde.mode != 3 && fde.mode != (if write then 2 else 1) { return 0; }
      match fde.kind {
        case Uart =>
          if write { return n; }
          var out := new nat[if n > 0 then n else 0](_ => 0);
          r := ReadLine(out, n, _ => 0, 0x0A);
        case Pipe => r := answer;
        case File =>
          if answer >= 0 { openft[i] := Used(fde.(cursor := fde.cursor + answer)); }
          assert openft[..] == old(openft[..])[i := openft[i]];
          r := answer;
      }
    }

    /** The system calls WRITE and READ. */
    method SvcTransfer(id: nat, env: C.Env)
      requires Sized() && (id == 1 || id == 2) && ctx.gpr[0] < 32 && NamesUsed(pcb[current].fdt, openft[..])
      modifies this`ctx, openft
      ensures Abs() == C.FileCall(old(Abs()), id, env)
    {
      hide NamesUsed, Transfer;
      var r := DoTransfer(ctx.gpr[0], id == 1, ctx.gpr[2], env.answer);
      ctx := SetResult(ctx, C.Word(r));
    }

    /** The system call CLOSE. */
    method SvcClose(env: C.Env)
      requires Sized() && NamesUsed(pcb[current].fdt, openft[..])
      modifies this`ctx, pcb, openft
      ensures Abs() == C.FileCall(old(Abs()), 0xC, env)
    {
      hide D.CloseCall, Bit;
      var ok := DoClose(ctx.gpr[0]);
      ctx := SetResult(ctx, if ok then 1 else 0);
    }

    /** do_exec. */
    method DoExec()
      requires Sized()
      modifies this`ctx
      ensures Abs() == C.Exec(old(Abs()))
    {
      ctx := ctx.(pc := ctx.gpr[0]);
      ctx := ctx.(sp := (pcb[current].stack + 4096) % WORD);
      ctx := ctx.(cpsr := 0x50);
    }

    /** The system call NICE. */
    method SvcNice()
      requires Sized()
      modifies pcb
      ensures Abs() == C.Nice(old(Abs()), ctx.gpr[0], ctx.gpr[1])
    {
      var pid, newp := ctx.gpr[0], ctx.gpr[1];
      if pid >= 32 || newp >= 0x8000_0000 { return; }
      pcb[pid] := pcb[pid].(basePriority := newp);
    }

    /** The system call FD_SWAP. */
    method SvcFdSwap(env: C.Env)
      requires Sized()
      modifies this`ctx, pcb
      ensures Abs() == C.FileCall(old(Abs()), 0xD, env)
    {
      ghost var s := Abs();
      var fd1, fd2 := ctx.gpr[0], ctx.gpr[1];
      if fd1 >= 32 || fd2 >= 32 {
        ctx := SetResult(ctx, 0);
        return;
      }
      var t := pcb[current].fdt[fd1];
      pcb[current] := pcb[current].(fdt := pcb[current].fdt[fd1 := pcb[current].fdt[fd2]]);
      pcb[current] := pcb[current].(fdt := pcb[current].fdt[fd2 := t]);
      ctx := SetResult(ctx, 1);
    }

    /** The call takes the caller itself out of the table. */
    static predicate Leaves(id: nat, a: nat, current: nat) { id == 4 || (id == 6 && a == current) }

    lemma NoneLeft(s: State, pid: nat)
      requires Good(s)
      ensures pid < 32 && Live(s.alloc) - {pid} == {} <==> Live(s.alloc) == {s.current} && pid == s.current
    {
      var l := Live(s.alloc);
      assert s.current in l;
      if pid < 32 && l - {pid} == {} {
        forall j | j in l ensures j == pid {
          assert j == pid || j in l - {pid};
        }
        assert l == {pid};
      }
    }

    /** hilevel_handler_svc. */
    method Svc(id: nat, env: C.Env) returns (halted: bool)
      requires Valid() && pcb.Length == 32 && sem.Length == 32 && openft.Length == 64 && pipes.Length == 32
      requires D.FilesOk(Abs(), false) && C.Defined(Abs(), id) && StackOk(env.childStack)
      modifies this, pcb, sem, openft, pipes
      ensures !halted ==> Abs() == C.Call(old(Abs()), id, env)
      ensures !halted ==> (Valid() <==> C.Safe(old(Abs()), id, env))
      ensures !halted && C.Safe(old(Abs()), id, env) ==> D.FilesOk(Abs(), false)
      ensures halted <==> Live(old(alloc)) == {old(current)} && Leaves(id, old(ctx.gpr[0]), old(current))
    {
      hide C.Call, D.FilesOk, Good, RegistersOk, NamesUsed, HasStack;
      ghost var s := Abs();
      C.Sizes(s);
      C.CallGood(s, id, env);
      if C.Safe(s, id, env) { C.CallFiles(s, id, env, false); }
      halted := Dispatch(id, env);
    }

    method Dispatch(id: nat, env: C.Env) returns (halted: bool)
      requires Good(Abs()) && RegistersOk(Abs())
      requires pcb.Length == 32 && sem.Length == 32 && openft.Length == 64 && pipes.Length == 32
      requires D.FilesOk(Abs(), false) && C.Defined(Abs(), id)
      modifies this, pcb, sem, openft, pipes
      ensures !halted ==> Abs() == C.Call(old(Abs()), id, env)
      ensures halted <==> Live(old(alloc)) == {old(current)} && Leaves(id, old(ctx.gpr[0]), old(current))
    {
      hide S.Next, Fork, Exit, Kill, Post, Wait, C.SemInit, C.FileCall, D.CloseCall, D.Refs, NamesUsed, Bit, Shl1;
      C.Sizes(Abs());
      NamesHere(Abs());
      NoneLeft(Abs(), ctx.gpr[0]);
      halted := false;
      if id == 0 {
        Next(Ready);
      } else if id == 3 {
        DoFork(env.childStack);
      } else if id == 4 {
        halted := SvcExit();
      } else if id == 5 || id == 0xF {
        DoExec();
        if id == 0xF { ctx := SetResult(ctx, ctx.gpr[1]); }
      } else if id == 6 {
        halted := DoKill(ctx.gpr[0]);
      } else if id == 7 {
        SvcNice();
      } else if id == 8 {
        SvcSemInit();
      } else if id == 9 {
        DoSemPost(ctx.gpr[0], ctx.gpr[1]);
      } else if id == 0xA {
        SvcSemWait();
      } else if C.OnFiles(id) {
        DispatchFiles(id, env);
      }
    }

    /** The cases on descriptors and pipes, and those the file system answers. */
    method DispatchFiles(id: nat, env: C.Env)
      requires Sized() && C.OnFiles(id) && C.Defined(Abs(), id) && NamesUsed(pcb[current].fdt, openft[..])
      modifies this`ctx, pcb, openft, pipes
      ensures Abs() == C.FileCall(old(Abs()), id, env)
    {
      hide D.PipeCall, NamesUsed;
      if id == 1 || id == 2 {
        SvcTransfer(id, env);
      } else if id == 0xB {
        SvcOpen(env);
      } else if id == 0xC {
        SvcClose(env);
      } else if id == 0xD {
        SvcFdSwap(env);
      } else if id == 0xE {
        var ok := DoPipe(env.memory);
      } else if id == 0x18 {
        ctx := SetResult(ctx, 1);
      } else {
        ctx := SetResult(ctx, C.Word(env.answer));
      }
    }
  }

  /** Standard input, output and error; the rest are unused. */
  function BootFdt(): (r: seq<int>)
    ensures |r| == 32 && forall i :: 0 <= i < 32 ==> r[i] == if i < 3 then i else -1
  {
    seq(32, i => if i < 3 then i else -1)
  }

  /** The serial line's three entries; the rest are free. */
  function BootSlot(i: nat): FileSlot {
    if i < 3 then Used(Fdte(Uart, if i == 0 then 1 else 2, "", 0, 0, 0)) else Free
  }

  lemma FirstBit()
    ensures forall i :: Bit(1, i) <==> i == 0
    ensures Live(1) == {0} && 1 < Shl1(32)
  {
    forall i ensures Bit(1, i) <==> i == 0 {
      BitZero(i);
      BitSet(0, 0, i);
    }
    BitsBelow(1, 1);
    assert Shl1(32) == 2 * Shl1(31) && Shl1(31) >= 1;
  }

  lemma BootGood(s: State, boot: Pcb, unused: Pcb)
    requires |s.pcb| == |s.sem| == |s.pipes| == 32 && |s.openft| == 64 && s.current == 0 && s.alloc < Shl1(32)
    requires (forall i :: Bit(s.alloc, i) <==> i == 0) && forall i :: 0 <= i < 32 ==> s.sem[i] == 0
    requires forall i :: 0 <= i < 32 ==> s.pcb[i] == if i == 0 then boot else unused
    requires boot.pid == 0 && boot.status == Executing && |boot.fdt| == |unused.fdt| == 32
    requires boot.stack < WORD && unused.stack < WORD && CtxOk(s.ctx) && CtxOk(boot.ctx) && CtxOk(unused.ctx)
    ensures Good(s) && RegistersOk(s)
  {
    hide Bit, Shl1, CtxOk;
  }

  lemma BootFiles(s: State)
    requires Shaped(s) && (forall i :: Bit(s.alloc, i) <==> i == 0) && s.pcb[0].fdt == BootFdt()
    requires forall g :: 0 <= g < 64 ==>
               (s.openft[g].Used? <==> g < 3) && (s.openft[g].Used? ==> s.openft[g].fd.kind == Uart)
    ensures D.FilesOk(s, true)
  {
  }

  lemma NamesHere(s: State)
    requires D.FilesOk(s, false) && Exists(s, s.current)
    ensures NamesUsed(s.pcb[s.current].fdt, s.openft)
  {
  }

  /** The accumulated runtime has no part in the choice. */
  lemma SameNext(s: State)
    requires |s.pcb| == 32 && s.current < 32
    ensures NextPid(s.(runtime := 0)) == NextPid(s)
  {
    SameAhead(s, 1);
  }

  lemma {:induction false} SameAhead(s: State, d: nat)
    requires |s.pcb| == 32 && s.current < 32 && 1 <= d <= 32
    ensures Ahead(s.(runtime := 0), d) == Ahead(s, d)
    decreases 32 - d
  {
    if d < 32 { SameAhead(s, d + 1); }
  }

  /** Closing through descriptor i, whether or not it was in use. */
  lemma SameClosed(s: State, t: State, i: nat)
    requires |s.pcb| == 32 && s.current < 32 && i < |s.pcb[s.current].fdt| == 32
    requires if s.pcb[s.current].fdt[i] != -1 then t == D.CloseCall(s, i) else t == s
    ensures t == D.CloseCall(s, i)
    ensures t.pcb == s.pcb[s.current := s.pcb[s.current].(fdt := t.pcb[s.current].fdt)]
    ensures CloseFrom(t.pcb[s.current].fdt, t.openft, i + 1) == CloseFrom(s.pcb[s.current].fdt, s.openft, i)
  {
    if s.pcb[s.current].fdt[i] == -1 {
      CloseUnused(s.pcb[s.current].fdt, s.openft, i);
      assert D.CloseCall(s, i).pcb == s.pcb;
    }
  }

  lemma CloseUnused(fdt: seq<int>, openft: seq<FileSlot>, fd: nat)
    requires fd < |fdt| && fdt[fd] == -1
    ensures Close(fdt, openft, fd) == (fdt, openft)
  {
  }
}
