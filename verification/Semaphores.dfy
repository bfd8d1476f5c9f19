/** Counting semaphores over whole runs (kernel/hilevel.c): units are conserved,
    hand-offs included, and unit operations lose no wake-up. */
module Semaphores {
  import opened Common
  import opened KernelState
  import opened KernelCalls

  /** Units an event adds to semaphore id. */
  function Posted(s: State, e: Event, id: nat): nat
    requires Possible(s, e) && id < 32
  {
    if e.TimerTick? then 0
    else
      var a, b := s.ctx.gpr[0], s.ctx.gpr[1];
      if e.id == 9 && a == id then b
      else if e.id == 8 && a == id && b < 32 then (b + WORD - s.sem[id] % WORD) % WORD
      else 0
  }

  /** Units of semaphore id that an event gives to a process: at once, or by
      handing them to a process that has been waiting. */
  function Granted(s: State, e: Event, id: nat): nat
    requires Possible(s, e) && id < 32
  {
    if e.TimerTick? then 0
    else
      var a, b, x := s.ctx.gpr[0], s.ctx.gpr[1], Posted(s, e, id);
      if e.id == 0xA && a == id && s.sem[id] >= b then b
      else HandedOver(s, id, x)
  }

  /** Units that a post of x hands to a waiter. */
  function HandedOver(s: State, id: nat, x: nat): nat
    requires |s.pcb| == 32 && s.current < 32
  {
    var d := Waiter(s, id, x, 1);
    if x > 0 && d < 32 && s.pcb[Slot(s.current, d)].waiting.Some? then s.pcb[Slot(s.current, d)].waiting.value.x else 0
  }

  lemma PostSem(s: State, a: nat, x: nat, id: nat)
    requires Good(s) && id < 32
    ensures |Post(s, a, x).sem| == 32 && HandedOver(s, id, x) <= x
    ensures Post(s, a, x).sem[id] == if a == id then (s.sem[id] + x - HandedOver(s, id, x)) % WORD else s.sem[id]
  {
    hide Slot, Bit, Shl1, Waiter, Others;
  }

  /** Semaphore id changes by what is posted and granted, modulo 2^32, and no more
      is granted than there is. */
  ghost predicate Conserves(s: State, e: Event, id: nat)
    requires Possible(s, e) && id < 32
  {
    var t := Step(s, e);
    && |t.sem| == 32 && Granted(s, e, id) <= s.sem[id] + Posted(s, e, id)
    && t.sem[id] == (s.sem[id] + Posted(s, e, id) - Granted(s, e, id)) % WORD
  }

  lemma InitConserves(s: State, env: Env, id: nat)
    requires Good(s) && RegistersOk(s) && Possible(s, SystemCall(8, env)) && id < 32
    ensures Conserves(s, SystemCall(8, env), id)
  {
    hide Post, HandedOver, Bit, Shl1, Others;
    var a, b := s.ctx.gpr[0], s.ctx.gpr[1];
    PostSem(s, id, Posted(s, SystemCall(8, env), id), id);
    if a < 32 && b < 32 { PostSem(s, a, (b + WORD - s.sem[a] % WORD) % WORD, id); }
  }

  lemma PostConserves(s: State, env: Env, id: nat)
    requires Good(s) && RegistersOk(s) && Possible(s, SystemCall(9, env)) && id < 32
    ensures Conserves(s, SystemCall(9, env), id)
  {
    hide Post, HandedOver, Bit, Shl1, Others;
    PostSem(s, id, Posted(s, SystemCall(9, env), id), id);
    PostSem(s, s.ctx.gpr[0], s.ctx.gpr[1], id);
  }

  lemma WaitConserves(s: State, env: Env, id: nat)
    requires Good(s) && RegistersOk(s) && Possible(s, SystemCall(0xA, env)) && id < 32
    ensures Conserves(s, SystemCall(0xA, env), id)
  {
    hide Wait, Waiter, Bit, Shl1, Others;
    WaitSem(s, s.ctx.gpr[0], s.ctx.gpr[1]);
  }

  /** Every event conserves the units of every semaphore. */
  lemma StepConserves(s: State, e: Event, id: nat)
    requires Good(s) && RegistersOk(s) && Possible(s, e) && id < 32
    ensures Conserves(s, e, id)
  {
    hide Tick, Call, Wait, Waiter, Bit, Shl1, Others;
    SemWords(s);
    match e {
      case TimerTick => TickWaits(s, id);
      case SystemCall(call, env) =>
        if call == 8 {
          InitConserves(s, env, id);
        } else if call == 9 {
          PostConserves(s, env, id);
        } else if call == 0xA {
          WaitConserves(s, env, id);
        } else {
          CallWaits(s, call, env, id);
        }
    }
  }

  lemma SemWords(s: State)
    requires Good(s)
    ensures forall i :: 0 <= i < 32 ==> s.sem[i] < WORD
  {
  }

  lemma WaitSem(s: State, id: nat, x: nat)
    requires Good(s) && id < 32
    ensures Wait(s, id, x).sem == Take(s, id, x).sem
  {
    hide CanRun, Bit;
    if s.sem[id] < x { NextGood(Take(s, id, x), Waiting); }
  }

  function TotalPosted(s: State, es: seq<Event>, id: nat): nat
    requires id < 32
    decreases |es|
  {
    if es == [] || !Possible(s, es[0]) then 0 else Posted(s, es[0], id) + TotalPosted(Step(s, es[0]), es[1..], id)
  }

  function TotalGranted(s: State, es: seq<Event>, id: nat): nat
    requires id < 32
    decreases |es|
  {
    if es == [] || !Possible(s, es[0]) then 0 else Granted(s, es[0], id) + TotalGranted(Step(s, es[0]), es[1..], id)
  }

  /** Over any run that does not post more than a word holds, the value of a
      semaphore is what it was, plus what was posted, less what was granted. */
  lemma {:induction false} UnitsConserved(s: State, es: seq<Event>, id: nat)
    requires Good(s) && RegistersOk(s) && SafeRun(s, es) && id < 32
    requires s.sem[id] + TotalPosted(s, es, id) < WORD
    ensures |Run(s, es).sem| == 32
    ensures Run(s, es).sem[id] + TotalGranted(s, es, id) == s.sem[id] + TotalPosted(s, es, id)
    decreases |es|
  {
    hide Step, Posted, Granted, Safe;
    if es != [] {
      StepConserves(s, es[0], id);
      StepGood(s, es[0]);
      UnitsConserved(Step(s, es[0]), es[1..], id);
    }
  }

  lemma StepGood(s: State, e: Event)
    requires Good(s) && RegistersOk(s) && Possible(s, e) && (e.SystemCall? ==> Safe(s, e.id, e.env))
    ensures Good(Step(s, e)) && RegistersOk(Step(s, e))
  {
    hide Call, Tick, Good, RegistersOk;
    match e {
      case TimerTick => TickGood(s);
      case SystemCall(id, env) => CallGood(s, id, env);
    }
  }

  // ---------------------------------------------------------- no lost wake-ups

  /** A live process waits for semaphore id. */
  ghost predicate WaitsFor(s: State, i: nat, id: nat)
    requires |s.pcb| == 32 && i < 32
  {
    Exists(s, i) && s.pcb[i].status == Waiting && s.pcb[i].waiting.Some? && s.pcb[i].waiting.value.semId == id
  }

  /** Waiters wait for one unit, and only while there is none. */
  ghost predicate NoLostWakeup(s: State, id: nat)
    requires |s.pcb| == 32 && |s.sem| == 32 && id < 32
  {
    && (forall i :: 0 <= i < 32 && WaitsFor(s, i, id) ==> s.pcb[i].waiting.value.x == 1)
    && (s.sem[id] > 0 ==> forall i :: 0 <= i < 32 ==> !WaitsFor(s, i, id))
  }

  /** Waits and posts on the semaphore are of one unit, and it is initialised
      only while nobody waits for it. */
  ghost predicate UnitOperation(s: State, e: Event, id: nat)
    requires Possible(s, e) && id < 32
  {
    e.SystemCall? && s.ctx.gpr[0] == id ==>
      && (e.id == 9 || e.id == 0xA ==> s.ctx.gpr[1] == 1)
      && (e.id == 8 ==> forall i :: 0 <= i < 32 ==> !WaitsFor(s, i, id))
  }

  lemma NextWaits(s: State, stat: Status, id: nat)
    requires Shaped(s) && Others(s) && s.pcb[s.current].pid == s.current
    requires s.pcb[s.current].status == if stat == Ready then Executing else stat
    ensures NoNewWaits(s, Next(s, stat), id)
  {
    hide Next, Bit;
    NextKeeps(s, stat);
  }

  /** Same waiters, same units. */
  lemma NoLostSame(s: State, t: State, id: nat)
    requires |s.pcb| == 32 && |s.sem| == 32 && |t.pcb| == 32 && |t.sem| == 32 && id < 32
    requires NoLostWakeup(s, id) && t.sem[id] <= s.sem[id]
    requires forall i :: 0 <= i < 32 && WaitsFor(t, i, id) ==>
               WaitsFor(s, i, id) && t.pcb[i].waiting == s.pcb[i].waiting
    ensures NoLostWakeup(t, id)
  {
  }

  lemma PostNoLost(s: State, a: nat, x: nat, id: nat)
    requires Good(s) && id < 32 && NoLostWakeup(s, id)
    requires a == id ==> x == 1 || forall i :: 0 <= i < 32 ==> !WaitsFor(s, i, id)
    ensures |Post(s, a, x).pcb| == 32 && |Post(s, a, x).sem| == 32 && NoLostWakeup(Post(s, a, x), id)
  {
    hide Slot, Bit, Distance;
    var t := Post(s, a, x);
    forall i | 0 <= i < 32 && WaitsFor(t, i, id) ensures WaitsFor(s, i, id) && t.pcb[i].waiting == s.pcb[i].waiting { }
    if a == id && x > 0 {
      var d := Waiter(s, id, x, 1);
      if d == 32 {
        forall i | 0 <= i < 32 ensures !WaitsFor(s, i, id) {
          assert Slot(s.current, Distance(s.current, i)) == i;
          assert WaitsFor(s, i, id) ==> Eligible(s, i, id, x);
        }
      } else {
        var w := Slot(s.current, d);
        assert Eligible(s, w, id, x) && WaitsFor(s, w, id) && s.sem[id] == 0;
        assert t.sem[id] == 0;
      }
    }
  }

  lemma WaitNoLost(s: State, a: nat, x: nat, id: nat)
    requires Good(s) && id < 32 && a < 32 && NoLostWakeup(s, id) && (a == id ==> x == 1)
    ensures |Wait(s, a, x).pcb| == 32 && |Wait(s, a, x).sem| == 32 && NoLostWakeup(Wait(s, a, x), id)
  {
    hide Bit, Next;
    var t := Take(s, a, x);
    forall i | 0 <= i < 32 && WaitsFor(t, i, id)
      ensures t.pcb[i].waiting.value.x == 1 && (WaitsFor(s, i, id) || (i == s.current && a == id && s.sem[id] < x))
    {
      assert i != s.current ==> WaitsFor(s, i, id);
    }
    assert NoLostWakeup(t, id);
    if s.sem[a] < x {
      NextWaits(t, Waiting, id);
      NoLostSame(t, Next(t, Waiting), id);
    }
  }

  /** The semaphores are as before and nobody has begun to wait. */
  ghost predicate NoNewWaits(s: State, t: State, id: nat)
    requires |s.pcb| == 32
  {
    && |t.pcb| == 32 && t.sem == s.sem
    && forall i :: 0 <= i < 32 && WaitsFor(t, i, id) ==> WaitsFor(s, i, id) && t.pcb[i].waiting == s.pcb[i].waiting
  }

  lemma TickWaits(s: State, id: nat)
    requires Good(s)
    ensures NoNewWaits(s, Tick(s), id)
  {
    hide Next, Bit;
    NextWaits(s, Ready, id);
  }

  lemma ExitWaits(s: State, id: nat)
    requires Good(s)
    ensures NoNewWaits(s, Exit(s), id)
  {
    hide Next, Bit, Leave;
    LeaveKeeps(s);
    LeaveAlloc(s);
    NextWaits(Leave(s), Terminated, id);
  }

  lemma LeaveAlloc(s: State)
    requires Good(s)
    ensures forall i :: 0 <= i < 32 ==> (Bit(Leave(s).alloc, i) <==> i != s.current && Bit(s.alloc, i))
  {
    RemoveLive(s, s.current);
  }

  lemma ForkWaits(s: State, childStack: Option<nat>, id: nat)
    requires Good(s) && RegistersOk(s)
    ensures NoNewWaits(s, Fork(s, childStack), id)
  {
    hide Bit, Shl1;
    var c := FirstClear(s.alloc, 0);
    if c < 32 { TakeBit(s.alloc, c); }
  }

  lemma KillWaits(s: State, pid: nat, id: nat)
    requires Good(s)
    ensures NoNewWaits(s, Kill(s, pid), id)
  {
    if pid < 32 && Exists(s, pid) { RemoveLive(s, pid); }
  }

  lemma CallWaits(s: State, call: nat, env: Env, id: nat)
    requires Good(s) && RegistersOk(s) && Defined(s, call) && call != 8 && call != 9 && call != 0xA
    ensures NoNewWaits(s, Call(s, call, env), id)
  {
    hide Next, Exit, FileCall, Fork, Kill, CanRun, Slot, Bit;
    if call == 0 {
      NextWaits(s, Ready, id);
    } else if call == 3 {
      ForkWaits(s, env.childStack, id);
    } else if call == 4 {
      ExitWaits(s, id);
    } else if call == 6 {
      KillWaits(s, s.ctx.gpr[0], id);
    } else if OnFiles(call) {
      FileCallOnly(s, call, env);
    }
  }

  /** No event of this kind leaves a process waiting for a semaphore that has a unit. */
  lemma StepNoLost(s: State, e: Event, id: nat)
    requires Good(s) && RegistersOk(s) && Possible(s, e) && id < 32 && NoLostWakeup(s, id) && UnitOperation(s, e, id)
    ensures |Step(s, e).pcb| == 32 && |Step(s, e).sem| == 32 && NoLostWakeup(Step(s, e), id)
  {
    hide Next, FileCall, Fork, Kill, Post, Wait, Tick, Exit, CanRun, Slot, WaitsFor, RegistersOk, Bit;
    Sizes(s);
    match e {
      case TimerTick => TickWaits(s, id);
      case SystemCall(call, env) =>
        var a, b := s.ctx.gpr[0], s.ctx.gpr[1];
        if call == 8 {
          if a < 32 && b < 32 { PostNoLost(s, a, (b + WORD - s.sem[a] % WORD) % WORD, id); }
          InitWaits(s, a, b, id);
        } else if call == 9 {
          PostNoLost(s, a, b, id);
        } else if call == 0xA {
          WaitNoLost(s, a, b, id);
        } else {
          CallWaits(s, call, env, id);
        }
    }
  }

  lemma InitWaits(s: State, a: nat, b: nat, id: nat)
    requires Good(s) && RegistersOk(s) && id < 32 && NoLostWakeup(s, id)
    requires a < 32 && b < 32 ==>
               var t := Post(s, a, (b + WORD - s.sem[a] % WORD) % WORD);
               |t.pcb| == 32 && |t.sem| == 32 && NoLostWakeup(t, id)
    ensures |SemInit(s, a, b).pcb| == 32 && |SemInit(s, a, b).sem| == 32 && NoLostWakeup(SemInit(s, a, b), id)
  {
    hide Post, Bit;
    if a < 32 && b < 32 {
      var t := Post(s, a, (b + WORD - s.sem[a] % WORD) % WORD);
      assert forall i :: 0 <= i < 32 ==> (WaitsFor(SemInit(s, a, b), i, id) <==> WaitsFor(t, i, id));
    } else {
      assert forall i :: 0 <= i < 32 ==> (WaitsFor(SemInit(s, a, b), i, id) <==> WaitsFor(s, i, id));
    }
  }

  ghost predicate UnitRun(s: State, es: seq<Event>, id: nat)
    requires id < 32
    decreases |es|
  {
    es == [] || !Possible(s, es[0]) || (UnitOperation(s, es[0], id) && UnitRun(Step(s, es[0]), es[1..], id))
  }

  /** If all waits and posts on a semaphore are of one unit, then in every state of
      the run a positive value means that no live process is waiting for it. */
  lemma {:induction false} NoWakeupLost(s: State, es: seq<Event>, id: nat)
    requires Good(s) && RegistersOk(s) && SafeRun(s, es) && id < 32 && UnitRun(s, es, id) && NoLostWakeup(s, id)
    ensures |Run(s, es).pcb| == 32 && |Run(s, es).sem| == 32 && NoLostWakeup(Run(s, es), id)
    decreases |es|
  {
    hide Step, Safe, UnitOperation, NoLostWakeup;
    if es != [] {
      StepNoLost(s, es[0], id);
      StepGood(s, es[0]);
      NoWakeupLost(Step(s, es[0]), es[1..], id);
    }
  }

  /** The units a process waits for. */
  function Awaited(s: State, p: nat): nat
    requires p < |s.pcb|
  {
    if s.pcb[p].waiting.Some? then s.pcb[p].waiting.value.x else 0
  }

  /** SEM_INIT answers 1 exactly if the number of units is below 32, the guard that
      is meant for the semaphore; with a semaphore of 32 and more it then answers 1
      and changes nothing. */
  lemma InitGuard(s: State, id: nat, init: nat)
    requires Good(s) && RegistersOk(s)
    ensures SemInit(s, id, init).ctx.gpr[0] == if init < 32 then 1 else 0
    ensures id >= 32 || init >= 32 ==>
              SemInit(s, id, init) == s.(ctx := SetResult(s.ctx, if init < 32 then 1 else 0))
  {
    hide Bit, Shl1, Waiter, Slot;
  }

  /** SEM_INIT sets a semaphore to the given value exactly if it has that value
      already, or no other process waits for as many units as are then posted or
      fewer, or the first one that does waits for none. */
  lemma InitSets(s: State, id: nat, init: nat)
    requires Good(s) && RegistersOk(s) && id < 32 && init < 32
    ensures var x := (init + WORD - s.sem[id]) % WORD;
            var d := Waiter(s, id, x, 1);
            |SemInit(s, id, init).sem| == 32
            && (SemInit(s, id, init).sem[id] == init
                <==> x == 0 || d == 32 || Awaited(s, Slot(s.current, d)) == 0)
  {
    hide Post, Bit, Shl1, Waiter, Others, HandedOver;
    var x := (init + WORD - s.sem[id]) % WORD;
    PostSem(s, id, x, id);
    InitSum(s.sem[id], init, HandedOver(s, id, x));
    NothingHanded(s, id, x);
  }

  lemma InitSum(a: nat, init: nat, w: nat)
    requires a < WORD && init < WORD && w <= (init + WORD - a) % WORD
    ensures (a + (init + WORD - a) % WORD - w) % WORD == init <==> w == 0
  {
    var x := (init + WORD - a) % WORD;
    assert a + x == init || a + x == init + WORD;
    assert (init + WORD - w) % WORD == (init - w) % WORD;
  }

  lemma NothingHanded(s: State, id: nat, x: nat)
    requires |s.pcb| == 32 && s.current < 32
    ensures var d := Waiter(s, id, x, 1);
            x == 0 || d == 32 || Awaited(s, Slot(s.current, d)) == 0 <==> HandedOver(s, id, x) == 0
  {
  }
}
