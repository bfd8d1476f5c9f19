/** What each system call of kernel/hilevel.c comes to for its caller and for the
    others, said of the state before it and the state after. */
module CallMeanings {
  import opened Common
  import opened Descriptors
  import opened KernelState
  import opened KernelCalls
  import opened DescriptorCounts

  // ------------------------------------------------------------ handing over

  /** `to` is the first process behind the current one that can run. */
  ghost predicate Nearest(s: State, to: nat)
    requires |s.pcb| == 32 && s.current < 32
  {
    && to < 32 && to != s.current && CanRun(s, to)
    && forall i :: 0 <= i < 32 && i != s.current && CanRun(s, i) ==>
         Distance(s.current, to) <= Distance(s.current, i)
  }

  /** The same entry but for its status. */
  predicate SameButStatus(p: Pcb, q: Pcb) { q == p.(status := q.status) }

  /** The current process has stepped down to `stat`, with its registers saved, and
      the nearest other one that can run goes on where it was. */
  ghost predicate HandedOver(s: State, t: State, stat: Status)
    requires |s.pcb| == 32 && s.current < 32
  {
    && |t.pcb| == 32 && Nearest(s, t.current) && t.runtime == 0
    && t.ctx == s.pcb[t.current].ctx
    && t.pcb[t.current].status == Executing && SameButStatus(s.pcb[t.current], t.pcb[t.current])
    && t.pcb[s.current].status == stat && t.pcb[s.current].ctx == s.ctx
    && SameButStatus(s.pcb[s.current].(ctx := s.ctx), t.pcb[s.current])
    && (CanRun(t, s.current) <==> stat == Ready && Exists(s, s.current)) && !CanRun(t, t.current)
    && (forall i :: 0 <= i < 32 && i != s.current && i != t.current ==> t.pcb[i] == s.pcb[i])
    && t.alloc == s.alloc && t.sem == s.sem && t.openft == s.openft && t.pipes == s.pipes
  }

  /** Nothing but the time the current process has run. */
  predicate Stayed(s: State, t: State) { t == s.(runtime := 0) }

  lemma NextMeans(s: State, stat: Status)
    requires |s.pcb| == 32 && s.current < 32 && Others(s) && stat in {Ready, Waiting, Terminated}
    ensures if OtherRunnable(s) then HandedOver(s, Next(s, stat), stat) else Stayed(s, Next(s, stat))
  {
    hide Ahead, Slot, Bit, Distance;
    AheadMeans(s);
    if OtherRunnable(s) {
      var r := Ahead(s, 1);
      SlotOnce(s.current, r);
      forall i | 0 <= i < 32 && i != s.current && CanRun(s, i) ensures r <= Distance(s.current, i) {
        assert Slot(s.current, Distance(s.current, i)) == i;
      }
    }
  }

  /** YIELD hands over to the nearest other process that can run, if there is one. */
  lemma YieldMeans(s: State, env: Env)
    requires Good(s) && |s.ctx.gpr| == 13
    ensures if OtherRunnable(s) then HandedOver(s, Call(s, 0, env), Ready) else Stayed(s, Call(s, 0, env))
  {
    NextMeans(s, Ready);
  }

  // --------------------------------------------------------- fork, exec, exit

  /** The least process number that is free. */
  ghost predicate LeastFree(s: State, c: nat) { c < 32 && !Exists(s, c) && forall j :: 0 <= j < c ==> Exists(s, j) }

  /** The child's entry: its own number and stack, its parent's descriptors,
      priorities and registers, but for the result 0 and the stack pointer, which
      moves by as much as the stack does. */
  ghost predicate ChildOf(parent: Pcb, ctx: Ctx, child: Pcb, c: nat, stack: nat) {
    && child.pid == c && child.status == Created && child.stack == stack
    && child.fdt == parent.fdt && child.basePriority == parent.basePriority && child.age == parent.age
    && child.waiting == parent.waiting
    && child.ctx.pc == ctx.pc && child.ctx.cpsr == ctx.cpsr && child.ctx.lr == ctx.lr
    && |child.ctx.gpr| == |ctx.gpr| == 13 && child.ctx.gpr[0] == 0 && child.ctx.gpr[1..] == ctx.gpr[1..]
    && child.ctx.sp < WORD && (child.ctx.sp - ctx.sp - (stack - parent.stack)) % WORD == 0
  }

  /** The caller goes on with result r, its registers from before the call saved. */
  ghost predicate CallerGoesOn(s: State, t: State, r: nat)
    requires |s.pcb| == |t.pcb| == 32 && s.current < 32
  {
    && t.current == s.current && t.pcb[s.current] == s.pcb[s.current].(ctx := s.ctx)
    && |s.ctx.gpr| == |t.ctx.gpr| == 13 && t.ctx.gpr[0] == r && t.ctx.gpr[1..] == s.ctx.gpr[1..]
    && t.ctx == s.ctx.(gpr := t.ctx.gpr)
    && t.runtime == s.runtime && t.sem == s.sem && t.pipes == s.pipes
  }

  /** FORK returns -1 to its caller if all 32 numbers are taken.  Otherwise the
      least free one goes to the child, whose stack is the area at m; without that
      area the result is -2, and the copy of the caller's entry stays in the table. */
  lemma ForkMeans(s: State, env: Env)
    requires Good(s) && RegistersOk(s) && StackOk(env.childStack)
    ensures var t, full := Call(s, 3, env), forall i :: 0 <= i < 32 ==> Exists(s, i);
            && |t.pcb| == 32
            && (full ==> CallerGoesOn(s, t, WORD - 1) && t.alloc == s.alloc && t.openft == s.openft
                         && forall i :: 0 <= i < 32 && i != s.current ==> t.pcb[i] == s.pcb[i])
            && (!full ==>
                  exists c: nat :: LeastFree(s, c)
                    && Live(t.alloc) == Live(s.alloc) + {c}
                    && (forall i :: 0 <= i < 32 && i != s.current && i != c ==> t.pcb[i] == s.pcb[i])
                    && match env.childStack
                       case Some(m) =>
                         CallerGoesOn(s, t, c) && ChildOf(s.pcb[s.current], s.ctx, t.pcb[c], c, m) && CanRun(t, c)
                       case None =>
                         && CallerGoesOn(s, t, WORD - 2) && t.openft == s.openft
                         && t.pcb[c] == s.pcb[s.current].(ctx := s.ctx))
  {
    hide Bit, Shl1, Live, ShareFrom, Others, CallerGoesOn, ChildOf;
    var c, t := FirstClear(s.alloc, 0), Call(s, 3, env);
    CallerIs(s, t, if c == 32 then WORD - 1 else if env.childStack.None? then WORD - 2 else c);
    if c < 32 {
      TakeBit(s.alloc, c);
      assert LeastFree(s, c);
      if env.childStack.Some? { ChildIs(s.pcb[s.current], s.ctx, t.pcb[c], c, env.childStack.value); }
    }
  }

  lemma CallerIs(s: State, t: State, r: nat)
    requires |s.pcb| == |t.pcb| == 32 && s.current < 32 && |s.ctx.gpr| == 13 && t.ctx == SetResult(s.ctx, r)
    requires t.current == s.current && t.pcb[s.current] == s.pcb[s.current].(ctx := s.ctx)
    requires t.runtime == s.runtime && t.sem == s.sem && t.pipes == s.pipes
    ensures CallerGoesOn(s, t, r)
  {
    assert s.ctx.gpr[0 := r][1..] == s.ctx.gpr[1..];
  }

  lemma ChildIs(parent: Pcb, ctx: Ctx, child: Pcb, c: nat, stack: nat)
    requires CtxOk(ctx) && parent.stack < WORD && stack < WORD
    requires child == parent.(pid := c, status := Created, stack := stack, ctx := child.ctx)
    requires child.ctx == SetResult(ctx, 0).(sp := (ctx.sp + WORD + stack % WORD - parent.stack % WORD) % WORD)
    ensures ChildOf(parent, ctx, child, c, stack)
  {
    StackMoves(ctx.sp, stack, parent.stack);
    assert ctx.gpr[0 := 0][1..] == ctx.gpr[1..];
  }

  lemma StackMoves(sp: nat, child: nat, parent: nat)
    requires sp < WORD && child < WORD && parent < WORD
    ensures ((sp + WORD + child % WORD - parent % WORD) % WORD - sp - (child - parent)) % WORD == 0
  {
  }

  /** EXEC and EXECX start the program at the address in the first register, in user
      mode, at the top of the caller's stack; EXECX passes its second register on as
      the first. */
  lemma ExecMeans(s: State, id: nat, env: Env)
    requires Good(s) && RegistersOk(s) && (id == 5 || id == 0xF)
    ensures var t := Call(s, id, env);
            && t == s.(ctx := t.ctx) && |t.ctx.gpr| == 13 && t.ctx.gpr[1..] == s.ctx.gpr[1..]
            && t.ctx.pc == s.ctx.gpr[0] && t.ctx.cpsr == 0x50 && t.ctx.lr == s.ctx.lr
            && t.ctx.gpr[0] == s.ctx.gpr[if id == 5 then 0 else 1]
            && t.ctx.sp < WORD && (t.ctx.sp - s.pcb[s.current].stack - 4096) % WORD == 0
  {
    hide Bit;
    var top := s.pcb[s.current].stack + 4096;
    assert (top % WORD - s.pcb[s.current].stack - 4096) % WORD == 0;
  }

  /** NICE sets one base priority, of any table entry, unless it is negative. */
  lemma NiceMeans(s: State, env: Env)
    requires Good(s) && |s.ctx.gpr| == 13
    ensures var t, pid, p := Call(s, 7, env), s.ctx.gpr[0], s.ctx.gpr[1];
            && t == s.(pcb := t.pcb) && |t.pcb| == 32
            && forall i :: 0 <= i < 32 ==>
                 && t.pcb[i] == s.pcb[i].(basePriority := t.pcb[i].basePriority)
                 && t.pcb[i].basePriority == if i == pid && p < 0x8000_0000 then p else s.pcb[i].basePriority
  {
    hide Bit;
  }

  /** KILL takes one process out of the set of live ones and leaves all else as it is. */
  lemma KillMeans(s: State, env: Env)
    requires Good(s) && |s.ctx.gpr| == 13
    ensures var t := Call(s, 6, env);
            && t == s.(alloc := t.alloc) && Live(t.alloc) == Live(s.alloc) - {s.ctx.gpr[0]}
  {
    hide Bit;
    KillGood(s, s.ctx.gpr[0]);
  }

  /** What the caller's closes make of a slot. */
  function Closed(slot: FileSlot, n: nat): FileSlot {
    if n == 0 || !slot.Used? then slot
    else if slot.fd.kind == File && slot.fd.openCount == n then Free
    else Used(slot.fd.(openCount := slot.fd.openCount - n))
  }

  /** Closing all descriptors from fd on takes from each entry's count the number of
      them that name it, and frees a file's entry exactly if none is left. */
  lemma {:induction false} CloseFromMeans(fdt: seq<int>, openft: seq<FileSlot>, fd: nat, g: nat)
    requires fd <= |fdt| && g < |openft|
    requires openft[g].Used? && openft[g].fd.kind == File ==> CountFrom(fdt, g, fd) <= openft[g].fd.openCount
    ensures |CloseFrom(fdt, openft, fd).1| == |openft|
    ensures CloseFrom(fdt, openft, fd).1[g] == Closed(openft[g], CountFrom(fdt, g, fd))
    decreases |fdt| - fd
  {
    if fd < |fdt| {
      var (fdt', openft') := Close(fdt, openft, fd);
      assert CountFrom(fdt', g, fd + 1) == CountFrom(fdt, g, fd + 1) by { CountUpdate(fdt, fd, -1, g, fd + 1); }
      CloseFromMeans(fdt', openft', fd + 1, g);
    }
  }

  /** The process has closed its descriptors and left the table. */
  ghost predicate Gone(s: State, u: State)
    requires |s.pcb| == 32 && s.current < 32 && |s.openft| == 64 && |s.pcb[s.current].fdt| == 32
  {
    var p, c := s.pcb[s.current], s.current;
    && |u.pcb| == 32 && |u.openft| == 64 && Live(u.alloc) == Live(s.alloc) - {c}
    && u.pcb[c] == p.(status := Terminated, basePriority := -1, fdt := u.pcb[c].fdt)
    && |u.pcb[c].fdt| == 32 && (forall j :: 0 <= j < 32 ==> u.pcb[c].fdt[j] == -1)
    && (forall i :: 0 <= i < 32 && i != c ==> u.pcb[i] == s.pcb[i])
    && (forall g :: 0 <= g < 64 ==> u.openft[g] == Closed(s.openft[g], Count(p.fdt, g)))
    && u == s.(pcb := u.pcb, alloc := u.alloc, openft := u.openft)
  }

  lemma LeaveMeans(s: State)
    requires Good(s) && FilesOk(s, false)
    ensures Gone(s, Leave(s))
  {
    hide Bit, Shl1, Live, CloseFrom, CountFrom, RefsFrom, NamesUsed, Closed;
    var fdt := s.pcb[s.current].fdt;
    RemoveLive(s, s.current);
    CloseAllKeeps(s, 0, false);
    CloseFromSizes(fdt, s.openft, 0);
    forall g | 0 <= g < 64 ensures CloseFrom(fdt, s.openft, 0).1[g] == Closed(s.openft[g], Count(fdt, g)) {
      RefsAtLeast(s, s.current, g, 0);
      CloseFromMeans(fdt, s.openft, 0, g);
    }
  }

  /** EXIT: the caller is gone, and the nearest process that can run goes on. */
  lemma ExitMeans(s: State, env: Env)
    requires Good(s) && FilesOk(s, false) && |s.ctx.gpr| == 13
    ensures Gone(s, Leave(s))
    ensures if OtherRunnable(s) then HandedOver(Leave(s), Call(s, 4, env), Terminated)
            else Stayed(Leave(s), Call(s, 4, env))
  {
    hide Leave, Next, HandedOver;
    LeaveMeans(s);
    LeaveKeeps(s);
    assert OtherRunnable(Leave(s)) <==> OtherRunnable(s) by {
      assert forall i :: 0 <= i < 32 && i != s.current ==> (CanRun(Leave(s), i) <==> CanRun(s, i));
    }
    NextMeans(Leave(s), Terminated);
  }

  // -------------------------------------------------------------- semaphores

  /** The first process behind the current one that waits for at most x units. */
  ghost predicate NearestWaiter(s: State, i: nat, id: nat, x: nat)
    requires |s.pcb| == 32 && s.current < 32
  {
    && i < 32 && i != s.current && Eligible(s, i, id, x)
    && forall j :: 0 <= j < 32 && j != s.current && Eligible(s, j, id, x) ==>
         Distance(s.current, i) <= Distance(s.current, j)
  }

  /** x units are posted to semaphore id: the first waiter they do for is ready to
      run and has its units; the others go to the semaphore. */
  ghost predicate Posted(s: State, t: State, id: nat, x: nat)
    requires |s.pcb| == |s.sem| == 32 && s.current < 32 && id < 32
  {
    if exists i :: 0 <= i < 32 && i != s.current && Eligible(s, i, id, x) then
      exists i: nat :: NearestWaiter(s, i, id, x) && |t.pcb| == 32
        && CanRun(t, i)
        && t == s.(pcb := s.pcb[i := s.pcb[i].(status := Ready)],
                   sem := s.sem[id := (s.sem[id] + x - s.pcb[i].waiting.value.x) % WORD])
    else t == s.(sem := s.sem[id := (s.sem[id] + x) % WORD])
  }

  lemma PostPosts(s: State, id: nat, x: nat)
    requires |s.pcb| == |s.sem| == 32 && s.current < 32 && id < 32 && 0 < x
    ensures Posted(s, Post(s, id, x), id, x)
  {
    hide Slot, Distance, Waiter, Bit;
    var d := Waiter(s, id, x, 1);
    SlotOnce(s.current, d);
    forall j | 0 <= j < 32 && j != s.current && Eligible(s, j, id, x)
      ensures d < 32 && Distance(s.current, Slot(s.current, d)) <= Distance(s.current, j)
    {
      assert Slot(s.current, Distance(s.current, j)) == j;
    }
    if d < 32 { assert NearestWaiter(s, Slot(s.current, d), id, x); }
  }

  /** SEM_POST posts to a semaphore that exists; posting nothing has no effect. */
  lemma PostMeans(s: State, env: Env)
    requires Good(s) && |s.ctx.gpr| == 13
    ensures var t, id, x := Call(s, 9, env), s.ctx.gpr[0], s.ctx.gpr[1];
            if id < 32 && 0 < x then Posted(s, t, id, x) else t == s
  {
    hide Posted, Bit;
    if s.ctx.gpr[0] < 32 && 0 < s.ctx.gpr[1] { PostPosts(s, s.ctx.gpr[0], s.ctx.gpr[1]); }
  }

  /** Only the first register of the caller has changed: it holds r, as a word. */
  ghost predicate Returned(s: State, t: State, r: int) {
    && |s.ctx.gpr| == |t.ctx.gpr| == 13 && t.ctx == s.ctx.(gpr := t.ctx.gpr) && t.ctx.gpr[1..] == s.ctx.gpr[1..]
    && t.ctx.gpr[0] < WORD && (t.ctx.gpr[0] - r) % WORD == 0
  }

  lemma ResultReturned(s: State, t: State, v: nat)
    requires |s.ctx.gpr| == 13 && v < WORD && t.ctx == SetResult(s.ctx, v)
    ensures Returned(s, t, v)
  {
    assert s.ctx.gpr[0 := v][1..] == s.ctx.gpr[1..];
  }

  /** SEM_INIT posts what is missing to the wanted value, modulo 2^32. */
  lemma InitMeans(s: State, env: Env)
    requires Good(s) && RegistersOk(s)
    ensures var t, id, v := Call(s, 8, env), s.ctx.gpr[0], s.ctx.gpr[1];
            && Returned(s, t, if v < 32 then 1 else 0)
            && if v < 32 && id < 32 && s.sem[id] != v
               then Posted(s, t.(ctx := s.ctx), id, Missing(s.sem[id], v))
               else t.(ctx := s.ctx) == s
  {
    hide Posted, Bit, Waiter, Slot, Good, Others, RegistersOk, Eligible, Missing, OtherRunnable, Returned;
    Sizes(s);
    var id, v := s.ctx.gpr[0], s.ctx.gpr[1];
    if v < 32 && id < 32 {
      MissingIs(s.sem[id], v);
      if s.sem[id] != v { PostPosts(s, id, Missing(s.sem[id], v)); }
      PostOnly(s, id, Missing(s.sem[id], v));
    }
    ResultReturned(s, Call(s, 8, env), if v < 32 then 1 else 0);
  }

  /** The units to be posted until `now` has become v, counting in words. */
  function Missing(now: nat, v: nat): nat
    requires now < WORD
  {
    if v >= now then v - now else v + WORD - now
  }

  lemma MissingIs(now: nat, v: nat)
    requires now < WORD && v < 32
    ensures (v + WORD - now % WORD) % WORD == Missing(now, v) && (Missing(now, v) == 0 <==> now == v)
  {
  }

  lemma PostOnly(s: State, id: nat, x: nat)
    requires |s.pcb| == |s.sem| == 32 && s.current < 32
    ensures Post(s, id, x).ctx == s.ctx && (x == 0 ==> Post(s, id, x) == s)
  {
    hide Waiter, Slot;
  }

  /** SEM_WAIT takes the units if they are there; otherwise the caller is noted as
      waiting for them, and the nearest process that can run goes on. */
  lemma WaitMeans(s: State, env: Env)
    requires Good(s) && |s.ctx.gpr| == 13 && s.ctx.gpr[0] < 32
    ensures var t, id, x := Call(s, 0xA, env), s.ctx.gpr[0], s.ctx.gpr[1];
            if s.sem[id] >= x then t == s.(sem := s.sem[id := s.sem[id] - x])
            else
              var u := s.(pcb := s.pcb[s.current := s.pcb[s.current].(status := Waiting,
                                                                      waiting := Some(SemWait(id, x)))]);
              if OtherRunnable(s) then HandedOver(u, t, Waiting) else Stayed(u, t)
  {
    hide Next, HandedOver, Bit;
    var id, x := s.ctx.gpr[0], s.ctx.gpr[1];
    if s.sem[id] < x {
      BlockRunnable(s, id, x);
      NextMeans(Take(s, id, x), Waiting);
    }
  }

  // -------------------------------------------------------------- descriptors

  /** The two lowest bits of the flags given to OPEN. */
  lemma ModeMeans(flags: nat)
    ensures Reads(Mode(flags)) <==> flags % 2 == 1
    ensures Writes(Mode(flags)) <==> flags / 2 % 2 == 1
  {
  }

  /** Entry g of the global table is as before but for its cursor, which has gone on
      by n; all others are as before. */
  predicate CursorMoved(a: seq<FileSlot>, b: seq<FileSlot>, g: nat, n: nat)
    requires g < |a| && a[g].Used?
  {
    b == a[g := Used(a[g].fd.(cursor := a[g].fd.cursor + n))]
  }

  /** WRITE and READ through a descriptor: -1 if it is not open, 0 if its mode does
      not allow it, and otherwise what the serial line, the pipe or the file
      system says; only the cursor of a file moves, by what was moved. */
  lemma TransferMeans(s: State, id: nat, env: Env)
    requires Good(s) && RegistersOk(s) && FilesOk(s, false) && (id == 1 || id == 2) && s.ctx.gpr[0] < 32
    ensures var t, g, n := Call(s, id, env), s.pcb[s.current].fdt[s.ctx.gpr[0]], s.ctx.gpr[2];
            && t == s.(openft := t.openft, ctx := t.ctx)
            && (g == -1 || (0 <= g < 64 && s.openft[g].Used?))
            && if g == -1 then Returned(s, t, -1) && t.openft == s.openft
               else
                 var e := s.openft[g].fd;
                 if !(if id == 1 then Writes(e.mode) else Reads(e.mode)) then Returned(s, t, 0) && t.openft == s.openft
                 else match e.kind
                   case Uart => Returned(s, t, if id == 1 then n else 0) && t.openft == s.openft
                   case Pipe => Returned(s, t, env.answer) && t.openft == s.openft
                   case File =>
                     Returned(s, t, env.answer)
                     && CursorMoved(s.openft, t.openft, g, if env.answer < 0 then 0 else env.answer)
  {
    hide Bit, Shl1, Refs, Others;
    assert NamesUsed(s.pcb[s.current].fdt, s.openft);
    var g := s.pcb[s.current].fdt[s.ctx.gpr[0]];
    if g != -1 { WordMeans(Transfer(s.openft, g, id == 1, s.ctx.gpr[2], env.answer).1); }
    WordMeans(-1);
  }

  lemma WordMeans(r: int)
    ensures Word(r) < WORD && (Word(r) - r) % WORD == 0
  {
  }

  /** OPEN gives its caller the descriptor, or -1. */
  lemma OpenCallMeans(s: State, env: Env)
    requires Good(s) && RegistersOk(s)
    ensures var t := Call(s, 0xB, env);
            var (u, r) := OpenCall(s, s.ctx.gpr[1] % 256, env.path, env.found, env.memory);
            Returned(s, t, r) && t.(ctx := s.ctx) == u
  {
    hide Bit, Shl1, Others, OpenSlot, FirstFreeFd;
    WordMeans(OpenCall(s, s.ctx.gpr[1] % 256, env.path, env.found, env.memory).1);
  }

  /** CLOSE gives a descriptor up, if it is open, and says whether it was. */
  lemma CloseMeans(s: State, env: Env)
    requires Good(s) && RegistersOk(s) && FilesOk(s, false)
    ensures var t, fd, p := Call(s, 0xC, env), s.ctx.gpr[0], s.pcb[s.current];
            if fd < 32 && p.fdt[fd] != -1 then
              var g := p.fdt[fd];
              && Returned(s, t, 1) && 0 <= g < 64 && s.openft[g].Used?
              && t.(ctx := s.ctx) == s.(pcb := s.pcb[s.current := p.(fdt := p.fdt[fd := -1])],
                                        openft := s.openft[g := Closed(s.openft[g], 1)])
            else Returned(s, t, 0) && t.(ctx := s.ctx) == s
  {
    hide Bit, Shl1, Others;
    var fd, fdt := s.ctx.gpr[0], s.pcb[s.current].fdt;
    assert NamesUsed(fdt, s.openft);
    if fd < 32 && fdt[fd] != -1 {
      CountPositive(fdt, fdt[fd], 0);
      RefsAtLeast(s, s.current, fdt[fd], 0);
    } else {
      assert CloseCall(s, fd).pcb == s.pcb;
    }
  }

  /** FD_SWAP exchanges two descriptors, open or not. */
  lemma SwapMeans(s: State, env: Env)
    requires Good(s) && RegistersOk(s)
    ensures var t, a, b, p := Call(s, 0xD, env), s.ctx.gpr[0], s.ctx.gpr[1], s.pcb[s.current];
            if a < 32 && b < 32 then
              && Returned(s, t, 1) && |t.pcb| == 32 && |t.pcb[s.current].fdt| == 32
              && t.(ctx := s.ctx) == s.(pcb := s.pcb[s.current := p.(fdt := t.pcb[s.current].fdt)])
              && forall j :: 0 <= j < 32 ==>
                   t.pcb[s.current].fdt[j] == p.fdt[if j == a then b else if j == b then a else j]
            else Returned(s, t, 0) && t.(ctx := s.ctx) == s
  {
    hide Bit, Shl1, Others;
  }

  /** Two swaps undo each other. */
  lemma SwapTwice(s: State, a: nat, b: nat)
    requires Shaped(s) && a < 32 && b < 32
    ensures SwapCall(SwapCall(s, a, b), a, b) == s
  {
    var fdt := s.pcb[s.current].fdt;
    var swapped := fdt[a := fdt[b]][b := fdt[a]];
    assert swapped[a := swapped[b]][b := swapped[a]] == fdt;
    assert s.pcb[s.current := s.pcb[s.current]] == s.pcb;
  }

  // The room a pipe needs.

  predicate TwoFree(fdt: seq<int>) { exists i, j :: 0 <= i < j < |fdt| && fdt[i] == -1 && fdt[j] == -1 }

  predicate TwoSlots(openft: seq<FileSlot>) {
    exists i, j :: 0 <= i < j < |openft| && openft[i] == Free && openft[j] == Free
  }

  lemma PipeRoomMeans(f: Files)
    ensures PipeRoom(f) <==> TwoFree(f.fdt) && false in f.pipes && TwoSlots(f.openft)
  {
    var r, g, p := FirstFreeFd(f.fdt, 0), FirstFreeSlot(f.openft, 0), FirstUnused(f.pipes, 0);
    if r < |f.fdt| { var r' := FirstFreeFd(f.fdt, r + 1); }
    if g < |f.openft| { var g' := FirstFreeSlot(f.openft, g + 1); }
  }

  /** PIPE enters both ends of an unused pipe if there is room and memory for three
      allocations; with memory for one the pipe is taken all the same. */
  lemma PipeCallMeans(s: State, env: Env)
    requires Good(s) && |s.ctx.gpr| == 13
    ensures var t, room := Call(s, 0xE, env), PipeRoom(FilesOf(s));
            && (room <==> TwoFree(s.pcb[s.current].fdt) && false in s.pipes && TwoSlots(s.openft))
            && if room && env.memory >= 3 then exists r, w, g, h, p :: PipeMade(s, t, r, w, g, h, p)
               else if room && env.memory >= 1 then
                 exists p :: 0 <= p < 32 && !s.pipes[p] && (forall q :: 0 <= q < p ==> s.pipes[q])
                   && t == s.(pipes := s.pipes[p := true])
               else t == s
  {
    hide Bit, Shl1, Others, PipeMade, FirstFreeFd, FirstFreeSlot, FirstUnused;
    PipeRoomMeans(FilesOf(s));
    PipeMeans(s, env.memory);
    assert Call(s, 0xE, env) == PipeCall(s, env.memory);
    assert WithFiles(s, s.pcb[s.current].fdt, s.openft) == s;
  }

  /** The calls that the file system answers, GETWD, and those that do nothing. */
  lemma AnswerMeans(s: State, id: nat, env: Env)
    requires Good(s) && |s.ctx.gpr| == 13 && id >= 0x10
    ensures var t := Call(s, id, env);
            if id <= 0x16 then Returned(s, t, env.answer) && t.(ctx := s.ctx) == s
            else if id == 0x18 then Returned(s, t, 1) && t.(ctx := s.ctx) == s
            else t == s
  {
    hide Bit;
    WordMeans(env.answer);
  }
}
