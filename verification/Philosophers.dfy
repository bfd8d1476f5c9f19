/** The dining philosophers of user/philosophers.c, run as processes of the kernel:
    forks are its semaphores, and every interleaving is one of its schedules. */
module Philosophers {
  import opened Common
  import opened KernelState
  import opened KernelCalls
  import opened Semaphores

  // Philosopher i has fork i to the left and fork i + 1, or 0, to the right.

  function Right(n: nat, i: nat): nat { if i == n - 1 then 0 else i + 1 }

  /** FIRST_FORK */
  function First(n: nat, i: nat): nat { if i < Right(n, i) then i else Right(n, i) }

  /** SECOND_FORK */
  function Second(n: nat, i: nat): nat { if i < Right(n, i) then Right(n, i) else i }

  /** A fork is taken before one with a higher number. */
  lemma LowerFirst(n: nat, i: nat)
    requires 2 <= n && i < n
    ensures First(n, i) < Second(n, i) < n
  {
  }

  /** The kernel with the philosophers spawned so far: ph[k] is the process of
      philosopher k and pc[k] the number of fork calls it has made since it last
      thought: wait for the first, wait for the second, post the first, (post the
      second).  Process sp spawns them and then serves their output. */
  datatype Table = Table(s: State, ph: seq<nat>, pc: seq<nat>, sp: nat)

  predicate Blocked(t: Table, k: nat)
    requires k < |t.ph| && t.ph[k] < |t.s.pcb|
  {
    t.s.pcb[t.ph[k]].status == Waiting
  }

  /** A blocked wait has been made but has not returned. */
  predicate Holds(n: nat, pc: nat, blocked: bool, k: nat, f: nat) {
    || (f == First(n, k) && ((pc == 1 && !blocked) || pc == 2))
    || (f == Second(n, k) && ((pc == 2 && !blocked) || pc == 3))
  }

  predicate Eats(t: Table, k: nat)
    requires k < |t.ph| && k < |t.pc| && t.ph[k] < |t.s.pcb|
  {
    t.pc[k] == 2 && !Blocked(t, k)
  }

  /** For each philosopher, whether it holds fork f. */
  function Holders(t: Table, n: nat, f: nat): (r: seq<bool>)
    requires |t.ph| == |t.pc| && forall k :: 0 <= k < |t.ph| ==> t.ph[k] < |t.s.pcb|
    ensures |r| == |t.ph|
  {
    seq(|t.ph|, k requires 0 <= k < |t.ph| => Holds(n, t.pc[k], Blocked(t, k), k, f))
  }

  function Trues(b: seq<bool>): nat { if b == [] then 0 else (if b[0] then 1 else 0) + Trues(b[1..]) }

  lemma {:induction false} TruesUpdate(b: seq<bool>, k: nat, v: bool)
    requires k < |b|
    ensures Trues(b[k := v]) == Trues(b) + (if v then 1 else 0) - (if b[k] then 1 else 0)
  {
    if k > 0 {
      assert b[k := v][1..] == b[1..][k - 1 := v];
      TruesUpdate(b[1..], k - 1, v);
    } else {
      assert b[k := v][1..] == b[1..];
    }
  }

  lemma {:induction false} TruesAppend(b: seq<bool>)
    ensures Trues(b + [false]) == Trues(b)
  {
    if b != [] {
      assert (b + [false])[1..] == b[1..] + [false];
      TruesAppend(b[1..]);
    }
  }

  lemma {:induction false} TruesOne(b: seq<bool>, k: nat)
    requires k < |b| && b[k]
    ensures Trues(b) >= 1
  {
    if k > 0 { TruesOne(b[1..], k - 1); }
  }

  lemma {:induction false} TruesNone(b: seq<bool>)
    requires forall k :: 0 <= k < |b| ==> !b[k]
    ensures Trues(b) == 0
  {
    if b != [] { TruesNone(b[1..]); }
  }

  lemma TruesTwo(b: seq<bool>, i: nat, j: nat)
    requires i < |b| && j < |b| && i != j && b[i] && b[j]
    ensures Trues(b) >= 2
  {
    TruesUpdate(b, i, false);
    TruesOne(b[i := false], j);
  }

  // -------------------------------------------------------------- invariant

  ghost predicate Seated(t: Table, n: nat) {
    && Good(t.s) && RegistersOk(t.s)
    && 2 <= n <= 32 && |t.ph| == |t.pc| <= n
    && (forall k :: 0 <= k < |t.ph| ==> t.ph[k] < 32 && Exists(t.s, t.ph[k]) && t.ph[k] != t.sp && t.pc[k] < 4)
    && (forall j, k :: 0 <= j < k < |t.ph| ==> t.ph[j] != t.ph[k])
    && t.sp < 32 && Exists(t.s, t.sp) && t.s.pcb[t.sp].status != Waiting
  }

  /** The fork philosopher k waits for if it is blocked. */
  function Wanted(t: Table, n: nat, k: nat): nat
    requires k < |t.pc|
  {
    if t.pc[k] == 1 then First(n, k) else Second(n, k)
  }

  /** Blocked philosophers wait for one unit of the fork they asked for, and only
      philosophers wait for forks. */
  ghost predicate WaitersOk(t: Table, n: nat)
    requires Seated(t, n)
  {
    && (forall k :: 0 <= k < |t.ph| && Blocked(t, k) ==>
          (t.pc[k] == 1 || t.pc[k] == 2) && t.s.pcb[t.ph[k]].waiting == Some(SemWait(Wanted(t, n, k), 1)))
    && (forall f, p :: 0 <= f < n && 0 <= p < 32 && WaitsFor(t.s, p, f) ==> p in t.ph)
  }

  /** Every fork is on the table or with one philosopher. */
  ghost predicate ForksOk(t: Table, n: nat)
    requires Seated(t, n)
  {
    forall f :: 0 <= f < n ==> t.s.sem[f] + Trues(Holders(t, n, f)) == 1 && NoLostWakeup(t.s, f)
  }

  ghost predicate TableOk(t: Table, n: nat) { Seated(t, n) && WaitersOk(t, n) && ForksOk(t, n) }

  // ------------------------------------------------------------- the theorems

  /** Neighbours never eat at the same time. */
  lemma MutualExclusion(t: Table, n: nat, i: nat)
    requires TableOk(t, n) && i < |t.ph| && Right(n, i) < |t.ph|
    ensures !(Eats(t, i) && Eats(t, Right(n, i)))
  {
    var j := Right(n, i);
    var b := Holders(t, n, j);
    assert Eats(t, i) ==> b[i];
    assert Eats(t, j) ==> b[j];
    if b[i] && b[j] { TruesTwo(b, i, j); }
  }

  /** The fork a blocked philosopher waits for is in somebody's hand. */
  lemma Awaited(t: Table, n: nat, k: nat)
    requires TableOk(t, n) && k < |t.ph| && Blocked(t, k)
    ensures Wanted(t, n, k) < n && Trues(Holders(t, n, Wanted(t, n, k))) == 1
    ensures t.pc[k] == 1 || t.pc[k] == 2
  {
    LowerFirst(n, k);
    assert WaitsFor(t.s, t.ph[k], Wanted(t, n, k));
  }

  /** If everybody were blocked nobody could hold any fork from f on: its holder
      would wait for a higher one, and somebody would hold that. */
  lemma {:induction false} NobodyHolds(t: Table, n: nat, f: nat)
    requires TableOk(t, n) && f <= n && forall k :: 0 <= k < |t.ph| ==> Blocked(t, k)
    ensures forall g :: f <= g < n ==> Trues(Holders(t, n, g)) == 0
    decreases n - f
  {
    if f < n {
      NobodyHolds(t, n, f + 1);
      var b := Holders(t, n, f);
      forall k | 0 <= k < |b| ensures !b[k] {
        LowerFirst(n, k);
        Awaited(t, n, k);
      }
      TruesNone(b);
    }
  }

  /** In no state are all philosophers blocked. */
  lemma SomebodyUnblocked(t: Table, n: nat)
    requires TableOk(t, n) && t.ph != []
    ensures exists k :: 0 <= k < |t.ph| && !Blocked(t, k) && (t.ph[k] == t.s.current || CanRun(t.s, t.ph[k]))
  {
    if k :| 0 <= k < |t.ph| && !Blocked(t, k) {
      assert t.ph[k] == t.s.current || CanRun(t.s, t.ph[k]);
    } else {
      Awaited(t, n, 0);
      NobodyHolds(t, n, 0);
    }
  }

  // -------------------------------------------------------------------- moves

  /** One step of an interleaving: the philosopher that is running makes its next
      fork call, a timer tick, some other call by whoever is running, or the
      spawner forks the next philosopher.  u are the registers set up for the call. */
  datatype Move = ForkCall(u: Ctx) | Clock | OtherCall(u: Ctx, id: nat, env: Env) | Spawn(u: Ctx, env: Env)

  function IndexOf(ph: seq<nat>, p: nat): (k: nat)
    ensures k <= |ph| && (k < |ph| ==> ph[k] == p)
    ensures k == |ph| ==> p !in ph
  {
    if ph == [] || ph[0] == p then 0 else 1 + IndexOf(ph[1..], p)
  }

  /** The fork that the next call of philosopher k is about. */
  function CallFork(t: Table, n: nat, k: nat): nat
    requires k < |t.pc|
  {
    if t.pc[k] == 0 || t.pc[k] == 2 then First(n, k) else Second(n, k)
  }

  /** Moves that leave the forks to the philosophers: philosophers only make fork
      calls and calls without effect on processes, the spawner neither exits nor
      waits, nobody kills either, and other processes use other semaphores. */
  ghost predicate Legal(t: Table, n: nat, m: Move)
    requires Seated(t, n)
  {
    match m
    case Clock => true
    case ForkCall(u) =>
      var k := IndexOf(t.ph, t.s.current);
      CtxOk(u) && k < |t.ph| && u.gpr[0] == CallFork(t, n, k) && u.gpr[1] == 1
    case OtherCall(u, id, env) =>
      && CtxOk(u) && StackOk(env.childStack)
      && (id == 1 || id == 2 ==> u.gpr[0] < 32) && (id == 3 ==> HasStack(t.s, env.childStack))
      && (t.s.current in t.ph ==> id !in {3, 4, 6, 8, 9, 0xA})
      && (t.s.current == t.sp ==> id != 4 && id != 0xA)
      && (id == 6 ==> u.gpr[0] !in t.ph && u.gpr[0] != t.sp && u.gpr[0] != t.s.current)
      && (id == 8 || id == 9 ==> n <= u.gpr[0])
      && (id == 0xA ==> n <= u.gpr[0] < 32)
    case Spawn(u, env) =>
      && CtxOk(u) && StackOk(env.childStack) && env.childStack.Some?
      && t.s.current == t.sp && |t.ph| < n && FirstClear(t.s.alloc, 0) < 32
  }

  function WithCtx(s: State, u: Ctx): State { s.(ctx := u) }

  const NO_ENV := Env("", false, 0, None, 0)

  ghost function Apply(t: Table, n: nat, m: Move): Table
    requires Seated(t, n) && Legal(t, n, m)
  {
    match m
    case Clock => t.(s := Tick(t.s))
    case ForkCall(u) =>
      var k := IndexOf(t.ph, t.s.current);
      ForkCallBounds(t, n, k);
      t.(s := Call(WithCtx(t.s, u), if t.pc[k] < 2 then 0xA else 9, NO_ENV), pc := t.pc[k := (t.pc[k] + 1) % 4])
    case OtherCall(u, id, env) => t.(s := Call(WithCtx(t.s, u), id, env))
    case Spawn(u, env) =>
      t.(s := Call(WithCtx(t.s, u), 3, env), ph := t.ph + [FirstClear(t.s.alloc, 0)], pc := t.pc + [0])
  }

  /** Every move is a step of the kernel, taken after whatever the running process
      has done with its registers: a timer tick, any call, a philosopher's wait for
      its lower fork, then for its higher one, and its two posts in the same order,
      or the fork by which the next philosopher is born. */
  lemma MoveIsStep(t: Table, n: nat, m: Move)
    requires Seated(t, n) && Legal(t, n, m)
    ensures var t' := Apply(t, n, m);
            match m
            case Clock => t'.s == Step(t.s, TimerTick) && t' == t.(s := t'.s)
            case OtherCall(u, id, env) => t'.s == Step(WithCtx(t.s, u), SystemCall(id, env)) && t' == t.(s := t'.s)
            case ForkCall(u) =>
              (exists k: nat {:trigger t.pc[k]} :: k < |t.ph| == |t.pc| && t.ph[k] == t.s.current
                 && u.gpr[0] == (if t.pc[k] == 0 || t.pc[k] == 2 then First(n, k) else Second(n, k)) && u.gpr[1] == 1
                 && t'.s == Step(WithCtx(t.s, u), SystemCall(if t.pc[k] == 0 || t.pc[k] == 1 then 0xA else 9, NO_ENV))
                 && t'.pc == t.pc[k := if t.pc[k] == 3 then 0 else t.pc[k] + 1])
              && t'.ph == t.ph && t'.sp == t.sp
            case Spawn(u, env) =>
              t'.s == Step(WithCtx(t.s, u), SystemCall(3, env))
              && t'.ph == t.ph + [t'.ph[|t.ph|]] && t'.pc == t.pc + [0] && t'.sp == t.sp
  {
    hide Call, Tick, Bit, Shl1;
    Sizes(t.s);
    if m.ForkCall? {
      var k := IndexOf(t.ph, t.s.current);
      ForkCallBounds(t, n, k);
      assert t.ph[k] == t.s.current && t.pc[k] < 4;
    }
  }

  /** The clock may tick at any time, and a process that is neither philosopher nor
      spawner make any call that kills nobody and leaves the forks alone. */
  lemma MovesAllowed(t: Table, n: nat, u: Ctx, id: nat, env: Env)
    requires Seated(t, n)
    ensures Legal(t, n, Clock)
    ensures CtxOk(u) && StackOk(env.childStack) && t.s.current !in t.ph && t.s.current != t.sp && id != 6
            && (id == 3 ==> env.childStack.Some?) && (id in {1, 2, 0xA} ==> u.gpr[0] < 32)
            && (id in {8, 9, 0xA} ==> n <= u.gpr[0]) ==>
              Legal(t, n, OtherCall(u, id, env))
  {
  }

  lemma ForkCallBounds(t: Table, n: nat, k: nat)
    requires Seated(t, n) && k < |t.ph|
    ensures CallFork(t, n, k) < n <= 32
  {
    LowerFirst(n, k);
  }

  // ------------------------------------------------ moves that touch no fork

  /** Philosophers are blocked as before, the spawner is there, and nobody new
      waits for a fork. */
  ghost predicate Undisturbed(t: Table, s': State, n: nat)
    requires Seated(t, n)
  {
    && Good(s') && RegistersOk(s')
    && (forall k :: 0 <= k < |t.ph| ==>
          && Exists(s', t.ph[k]) && s'.pcb[t.ph[k]].waiting == t.s.pcb[t.ph[k]].waiting
          && (s'.pcb[t.ph[k]].status == Waiting <==> Blocked(t, k)))
    && Exists(s', t.sp) && s'.pcb[t.sp].status != Waiting
    && (forall f :: 0 <= f < n ==> s'.sem[f] == t.s.sem[f])
    && (forall f, p :: 0 <= f < n && 0 <= p < 32 && WaitsFor(s', p, f) ==> WaitsFor(t.s, p, f))
  }

  lemma StaysOk(t: Table, s': State, n: nat)
    requires TableOk(t, n) && Undisturbed(t, s', n)
    ensures TableOk(t.(s := s'), n)
  {
    var t' := t.(s := s');
    forall f | 0 <= f < n ensures s'.sem[f] + Trues(Holders(t', n, f)) == 1 && NoLostWakeup(s', f) {
      assert Holders(t', n, f) == Holders(t, n, f);
      forall i | 0 <= i < 32 && WaitsFor(s', i, f)
        ensures WaitsFor(t.s, i, f) && s'.pcb[i].waiting == t.s.pcb[i].waiting
      {
        assert i in t.ph;
        var k :| 0 <= k < |t.ph| && t.ph[k] == i;
      }
      NoLostSame(t.s, s', f);
    }
  }

  lemma ClockUndisturbed(t: Table, n: nat)
    requires Seated(t, n)
    ensures Undisturbed(t, Tick(t.s), n)
  {
    hide Next, Bit;
    TickGood(t.s);
    TickStatus(t.s);
    forall f | 0 <= f < n ensures NoNewWaits(t.s, Tick(t.s), f) { TickWaits(t.s, f); }
  }

  lemma TableIs(t: Table, n: nat)
    requires TableOk(t, n)
    ensures Seated(t, n) && Good(t.s) && RegistersOk(t.s)
  {
  }

  lemma TickStatus(s: State)
    requires Good(s)
    ensures |Tick(s).pcb| == 32 && Tick(s).alloc == s.alloc && Tick(s).sem == s.sem
    ensures forall i :: 0 <= i < 32 ==>
              && Tick(s).pcb[i].waiting == s.pcb[i].waiting
              && (Tick(s).pcb[i].status == Waiting <==> s.pcb[i].status == Waiting)
  {
    hide Next, Bit;
    NextKeeps(s, Ready);
  }

  /** A call leaves process i where it is, and blocked exactly if it was, unless i
      is the caller and exits or waits, is killed, or is woken by a post. */
  lemma StillThere(s: State, id: nat, env: Env, i: nat)
    requires Good(s) && RegistersOk(s) && Defined(s, id) && StackOk(env.childStack) && i < 32 && Exists(s, i)
    requires i == s.current ==> id != 4 && id != 0xA
    requires id == 6 ==> s.ctx.gpr[0] != i
    requires (id == 8 || id == 9) && s.pcb[i].status == Waiting ==>
               s.pcb[i].waiting.Some? && s.pcb[i].waiting.value.semId != s.ctx.gpr[0]
    ensures var t := Call(s, id, env);
            && |t.pcb| == 32 && Exists(t, i) && t.pcb[i].waiting == s.pcb[i].waiting
            && (t.pcb[i].status == Waiting <==> s.pcb[i].status == Waiting)
  {
    hide Next, FileCall, Exit, Fork, Kill, Post, Wait, Bit;
    var a, b := s.ctx.gpr[0], s.ctx.gpr[1];
    if id == 0 {
      NextKeeps(s, Ready);
    } else if id == 3 {
      ForkThere(s, env.childStack, i);
    } else if id == 4 {
      ExitThere(s, i);
    } else if id == 6 {
      KillThere(s, a, i);
    } else if id == 8 {
      if a < 32 && b < 32 { PostThere(s, a, (b + WORD - s.sem[a] % WORD) % WORD, i); }
    } else if id == 9 {
      PostThere(s, a, b, i);
    } else if id == 0xA {
      WaitThere(s, a, b, i);
    } else if OnFiles(id) {
      FileCallOnly(s, id, env);
    }
  }

  lemma ExitThere(s: State, i: nat)
    requires Good(s) && i < 32 && Exists(s, i) && i != s.current
    ensures var t := Exit(s);
            && |t.pcb| == 32 && Exists(t, i) && t.pcb[i].waiting == s.pcb[i].waiting
            && (t.pcb[i].status == Waiting <==> s.pcb[i].status == Waiting)
  {
    hide Next, Leave, Bit;
    LeaveKeeps(s);
    LeaveAlloc(s);
    NextKeeps(Leave(s), Terminated);
  }

  lemma WaitThere(s: State, id: nat, x: nat, i: nat)
    requires Good(s) && id < 32 && i < 32 && i != s.current
    ensures var t := Wait(s, id, x);
            && |t.pcb| == 32 && t.alloc == s.alloc && t.pcb[i].waiting == s.pcb[i].waiting
            && (t.pcb[i].status == Waiting <==> s.pcb[i].status == Waiting)
  {
    hide Next, Bit;
    if s.sem[id] < x { NextKeeps(Take(s, id, x), Waiting); }
  }

  lemma KillThere(s: State, pid: nat, i: nat)
    requires Good(s) && i < 32 && i != pid
    ensures Exists(Kill(s, pid), i) <==> Exists(s, i)
    ensures Kill(s, pid).pcb == s.pcb
  {
    if pid < 32 && Exists(s, pid) { RemoveLive(s, pid); }
  }

  lemma PostThere(s: State, id: nat, x: nat, i: nat)
    requires Good(s) && i < 32 && Exists(s, i)
    requires s.pcb[i].status == Waiting ==> s.pcb[i].waiting.Some? && s.pcb[i].waiting.value.semId != id
    ensures var t := Post(s, id, x);
            && |t.pcb| == 32 && Exists(t, i) && t.pcb[i].waiting == s.pcb[i].waiting
            && (t.pcb[i].status == Waiting <==> s.pcb[i].status == Waiting)
  {
    hide Slot, Waiter, Bit;
  }

  lemma ForkThere(s: State, childStack: Option<nat>, i: nat)
    requires Good(s) && RegistersOk(s) && i < 32 && Exists(s, i)
    ensures var t := Fork(s, childStack);
            && |t.pcb| == 32 && Exists(t, i) && t.pcb[i].waiting == s.pcb[i].waiting
            && t.pcb[i].status == s.pcb[i].status
            && (FirstClear(s.alloc, 0) < 32 && childStack.Some? ==>
                  Exists(t, FirstClear(s.alloc, 0)) && t.pcb[FirstClear(s.alloc, 0)].status == Created)
  {
    hide Bit, Shl1;
    var c := FirstClear(s.alloc, 0);
    if c < 32 { TakeBit(s.alloc, c); }
  }

  /** Calls that are not about forks disturb nobody. */
  lemma OtherUndisturbed(t: Table, n: nat, u: Ctx, id: nat, env: Env)
    requires Seated(t, n) && Legal(t, n, OtherCall(u, id, env))
    requires forall k :: 0 <= k < |t.ph| && Blocked(t, k) ==>
               t.s.pcb[t.ph[k]].waiting.Some? && t.s.pcb[t.ph[k]].waiting.value.semId < n
    ensures Undisturbed(t, Call(WithCtx(t.s, u), id, env), n)
  {
    hide Call, Bit, Good, RegistersOk, Post, Take, CanRun;
    var s := WithCtx(t.s, u);
    SetRegisters(t.s, u);
    Sizes(s);
    SafeCall(t, n, u, id, env);
    CallGood(s, id, env);
    var s' := Call(s, id, env);
    Sizes(s');
    forall k | 0 <= k < |t.ph|
      ensures Exists(s', t.ph[k]) && s'.pcb[t.ph[k]].waiting == t.s.pcb[t.ph[k]].waiting
      ensures s'.pcb[t.ph[k]].status == Waiting <==> Blocked(t, k)
    {
      StillThere(s, id, env, t.ph[k]);
    }
    StillThere(s, id, env, t.sp);
    SameWaiters(t.s, u);
    forall f | 0 <= f < n ensures s'.sem[f] == t.s.sem[f] { ForksUntouched(s, id, env, f); }
    forall f, p | 0 <= f < n && 0 <= p < 32 && WaitsFor(s', p, f) ensures WaitsFor(t.s, p, f) {
      ForksUntouched(s, id, env, f);
      assert WaitsFor(s, p, f);
    }
  }

  /** Such calls, by anyone, keep the table in order. */
  lemma OtherOk(t: Table, n: nat, u: Ctx, id: nat, env: Env)
    requires TableOk(t, n) && Legal(t, n, OtherCall(u, id, env))
    ensures TableOk(t.(s := Call(WithCtx(t.s, u), id, env)), n)
  {
    hide Call, TableOk, Undisturbed;
    TableIs(t, n);
    forall k | 0 <= k < |t.ph| && Blocked(t, k)
      ensures t.s.pcb[t.ph[k]].waiting.Some? && t.s.pcb[t.ph[k]].waiting.value.semId < n
    {
      BlockedOn(t, n, k);
    }
    OtherUndisturbed(t, n, u, id, env);
    StaysOk(t, Call(WithCtx(t.s, u), id, env), n);
  }

  lemma SetRegisters(s: State, u: Ctx)
    requires Good(s) && RegistersOk(s) && CtxOk(u)
    ensures Good(WithCtx(s, u)) && RegistersOk(WithCtx(s, u))
    ensures forall f, p :: 0 <= f < 32 && 0 <= p < 32 ==> (WaitsFor(WithCtx(s, u), p, f) <==> WaitsFor(s, p, f))
    ensures forall f :: 0 <= f < 32 ==> (NoLostWakeup(WithCtx(s, u), f) <==> NoLostWakeup(s, f))
  {
    hide Bit;
  }

  lemma SameWaiters(s: State, u: Ctx)
    requires |s.pcb| == 32
    ensures forall f, p :: 0 <= p < 32 ==> (WaitsFor(WithCtx(s, u), p, f) <==> WaitsFor(s, p, f))
  {
  }

  lemma BlockedOn(t: Table, n: nat, k: nat)
    requires TableOk(t, n) && k < |t.ph| && Blocked(t, k)
    ensures t.s.pcb[t.ph[k]].waiting.Some? && t.s.pcb[t.ph[k]].waiting.value.semId < n
  {
    LowerFirst(n, k);
  }

  /** The spawner can take over from any other process, so those may block and exit. */
  lemma SafeCall(t: Table, n: nat, u: Ctx, id: nat, env: Env)
    requires Seated(t, n) && CtxOk(u) && (id == 0xA ==> u.gpr[0] < 32)
    requires id == 4 || id == 0xA ==> t.s.current != t.sp
    requires id == 6 ==> u.gpr[0] != t.s.current
    requires (id == 1 || id == 2 ==> u.gpr[0] < 32) && (id == 3 ==> HasStack(t.s, env.childStack))
    ensures Defined(WithCtx(t.s, u), id) && Safe(WithCtx(t.s, u), id, env)
  {
    hide Bit;
    assert t.s.current != t.sp ==> CanRun(WithCtx(t.s, u), t.sp);
  }

  /** Fork f has the value it had, and nobody new waits for it. */
  ghost predicate Untouched(s: State, t: State, f: nat)
    requires |s.pcb| == 32 && |s.sem| == 32 && f < 32
  {
    && |t.pcb| == 32 && |t.sem| == 32 && t.sem[f] == s.sem[f]
    && forall p :: 0 <= p < 32 && WaitsFor(t, p, f) ==> WaitsFor(s, p, f)
  }

  lemma PostUntouched(s: State, a: nat, x: nat, f: nat)
    requires Good(s) && f < 32 && a != f
    ensures Untouched(s, Post(s, a, x), f) && |Post(s, a, x).ctx.gpr| == |s.ctx.gpr|
  {
    hide Bit, Slot, Waiter;
  }

  lemma WaitUntouched(s: State, a: nat, x: nat, f: nat)
    requires Good(s) && f < 32 && a < 32 && a != f
    ensures Untouched(s, Wait(s, a, x), f)
  {
    hide Bit, Next;
    if s.sem[a] < x { NextWaits(Take(s, a, x), Waiting, f); }
  }

  /** A call that names no fork touches none. */
  lemma ForksUntouched(s: State, id: nat, env: Env, f: nat)
    requires Good(s) && RegistersOk(s) && Defined(s, id) && f < 32
    requires id == 8 || id == 9 || id == 0xA ==> s.ctx.gpr[0] != f
    ensures Untouched(s, Call(s, id, env), f)
  {
    hide Post, Wait, Bit, Good, RegistersOk;
    Sizes(s);
    var a, b := s.ctx.gpr[0], s.ctx.gpr[1];
    if id == 0xA {
      WaitUntouched(s, a, b, f);
    } else if id == 9 {
      PostUntouched(s, a, b, f);
    } else if id == 8 {
      if a < 32 { PostUntouched(s, a, (b + WORD - s.sem[a] % WORD) % WORD, f); }
    } else {
      hide Call;
      CallWaits(s, id, env, f);
    }
  }

  // ---------------------------------------------------------------- fork calls

  /** Philosopher k is running and about to make a call on fork f; s is the state
      with the call's registers set up. */
  ghost predicate Calling(t: Table, n: nat, u: Ctx, k: nat, f: nat)
    requires TableOk(t, n)
  {
    k < |t.ph| && t.ph[k] == t.s.current && CtxOk(u) && f < n && f == CallFork(t, n, k)
  }

  // Who holds what after the next call of philosopher k, seen from its place
  // at the table alone.

  ghost predicate SamePlaces(t: Table, t': Table)
  {
    && t'.ph == t.ph && |t'.pc| == |t.pc| == |t.ph|
    && forall j :: 0 <= j < |t.ph| ==> t.ph[j] < |t.s.pcb| && t.ph[j] < |t'.s.pcb|
  }

  /** Taking the fork asked for. */
  lemma HoldersTake(t: Table, t': Table, n: nat, k: nat, g: nat)
    requires SamePlaces(t, t') && k < |t.ph| <= n && 2 <= n && t.pc[k] < 2 && t'.pc == t.pc[k := t.pc[k] + 1]
    requires !Blocked(t', k) && forall j :: 0 <= j < |t.ph| && j != k ==> (Blocked(t', j) <==> Blocked(t, j))
    requires !Blocked(t, k)
    ensures !Holders(t, n, CallFork(t, n, k))[k]
    ensures Holders(t', n, g) == if g == CallFork(t, n, k) then Holders(t, n, g)[k := true] else Holders(t, n, g)
  {
    LowerFirst(n, k);
  }

  /** Blocking on the fork asked for. */
  lemma HoldersBlock(t: Table, t': Table, n: nat, k: nat, g: nat)
    requires SamePlaces(t, t') && k < |t.ph| <= n && 2 <= n && t.pc[k] < 2 && t'.pc == t.pc[k := t.pc[k] + 1]
    requires Blocked(t', k) && forall j :: 0 <= j < |t.ph| && j != k ==> (Blocked(t', j) <==> Blocked(t, j))
    requires !Blocked(t, k)
    ensures Holders(t', n, g) == Holders(t, n, g)
  {
    LowerFirst(n, k);
  }

  /** Putting a fork down. */
  lemma HoldersPut(t: Table, t': Table, n: nat, k: nat, g: nat)
    requires SamePlaces(t, t') && k < |t.ph| <= n && 2 <= n && 2 <= t.pc[k] < 4 && t'.pc == t.pc[k := (t.pc[k] + 1) % 4]
    requires forall j :: 0 <= j < |t.ph| ==> (Blocked(t', j) <==> Blocked(t, j))
    requires !Blocked(t, k)
    ensures Holders(t, n, CallFork(t, n, k))[k]
    ensures Holders(t', n, g) == if g == CallFork(t, n, k) then Holders(t, n, g)[k := false] else Holders(t, n, g)
  {
    LowerFirst(n, k);
  }

  /** Being handed the fork one has been waiting for. */
  lemma HoldersGet(t: Table, t': Table, n: nat, j: nat, g: nat)
    requires SamePlaces(t, t') && j < |t.ph| <= n && 2 <= n && t'.pc == t.pc && (t.pc[j] == 1 || t.pc[j] == 2)
    requires Blocked(t, j) && !Blocked(t', j)
    requires forall i :: 0 <= i < |t.ph| && i != j ==> (Blocked(t', i) <==> Blocked(t, i))
    ensures !Holders(t, n, Wanted(t, n, j))[j]
    ensures Holders(t', n, g) == if g == Wanted(t, n, j) then Holders(t, n, g)[j := true] else Holders(t, n, g)
  {
    LowerFirst(n, j);
  }

  // ---------------------------------------------------------------- fork calls

  /** Everybody keeps their seat while only semaphores change and the philosopher
      that is running moves on. */
  lemma KeptSeats(t: Table, t': Table, n: nat)
    requires TableOk(t, n) && Good(t'.s) && RegistersOk(t'.s)
    requires t'.ph == t.ph && t'.sp == t.sp && |t'.pc| == |t.pc| && t'.s.pcb == t.s.pcb && t'.s.alloc == t.s.alloc
    requires forall k :: 0 <= k < |t.ph| ==> t'.pc[k] < 4 && (Blocked(t, k) ==> t'.pc[k] == t.pc[k])
    ensures Seated(t', n) && WaitersOk(t', n)
  {
    hide Bit, Good, RegistersOk;
    Sizes(t.s);
    assert forall g, p :: 0 <= p < 32 ==> (WaitsFor(t'.s, p, g) <==> WaitsFor(t.s, p, g));
  }

  /** The fork is there and taken. */
  lemma GrantedOk(t: Table, n: nat, u: Ctx, k: nat, f: nat)
    requires TableOk(t, n) && Calling(t, n, u, k, f) && t.pc[k] < 2 && t.s.sem[f] >= 1
    ensures TableOk(t.(s := Wait(WithCtx(t.s, u), f, 1), pc := t.pc[k := t.pc[k] + 1]), n)
  {
    hide Bit, Next, CanRun, Holders, Trues, NoLostWakeup, Good, RegistersOk, WaitersOk;
    Sizes(t.s);
    var s := WithCtx(t.s, u);
    var s' := Wait(s, f, 1);
    var t' := t.(s := s', pc := t.pc[k := t.pc[k] + 1]);
    SetRegisters(t.s, u);
    WaitGood(s, f, 1);
    KeptSeats(t, t', n);
    forall g | 0 <= g < n ensures s'.sem[g] + Trues(Holders(t', n, g)) == 1 && NoLostWakeup(s', g) {
      WaitNoLost(s, f, 1, g);
      HoldersTake(t, t', n, k, g);
      TruesUpdate(Holders(t, n, g), k, true);
    }
  }

  lemma TakeShape(s: State, f: nat)
    requires Good(s) && f < 32
    ensures Shaped(Take(s, f, 1)) && Others(Take(s, f, 1)) && Take(s, f, 1).pcb[s.current].pid == s.current
  {
    hide Bit;
  }

  /** The fork is not there, and the philosopher blocks. */
  lemma BlocksOk(t: Table, n: nat, u: Ctx, k: nat, f: nat)
    requires TableOk(t, n) && Calling(t, n, u, k, f) && t.pc[k] < 2 && t.s.sem[f] == 0
    ensures TableOk(t.(s := Wait(WithCtx(t.s, u), f, 1), pc := t.pc[k := t.pc[k] + 1]), n)
  {
    hide Bit, Next, CanRun, Holders, Trues, NoLostWakeup, RegistersOk, OtherRunnable, Good, WaitersOk;
    Sizes(t.s);
    var s := WithCtx(t.s, u);
    var m, s' := Take(s, f, 1), Wait(s, f, 1);
    var t' := t.(s := s', pc := t.pc[k := t.pc[k] + 1]);
    SetRegisters(t.s, u);
    SpawnerReady(t, n, u);
    WaitGood(s, f, 1);
    TakeShape(s, f);
    NextKeeps(m, Waiting);
    BlockSeats(t, t', n, k, f);
    forall g | 0 <= g < n ensures s'.sem[g] + Trues(Holders(t', n, g)) == 1 && NoLostWakeup(s', g) {
      WaitNoLost(s, f, 1, g);
      HoldersBlock(t, t', n, k, g);
    }
  }

  /** Everybody keeps their seat when philosopher k blocks on the fork it asked for. */
  lemma BlockSeats(t: Table, t': Table, n: nat, k: nat, f: nat)
    requires TableOk(t, n) && k < |t.ph| && t.ph[k] == t.s.current && t.pc[k] < 2 && f == CallFork(t, n, k)
    requires Good(t'.s) && RegistersOk(t'.s) && t' == t.(s := t'.s, pc := t.pc[k := t.pc[k] + 1])
    requires |t'.s.pcb| == 32 && t'.s.alloc == t.s.alloc && t'.s.pcb[t.s.current].waiting == Some(SemWait(f, 1))
    requires forall i :: 0 <= i < 32 && i != t.s.current ==> t'.s.pcb[i].waiting == t.s.pcb[i].waiting
    requires forall i :: 0 <= i < 32 ==>
               (t'.s.pcb[i].status == Waiting <==> i == t.s.current || t.s.pcb[i].status == Waiting)
    ensures Seated(t', n) && WaitersOk(t', n)
    ensures forall i :: 0 <= i < |t.ph| ==> (Blocked(t', i) <==> i == k || Blocked(t, i))
    ensures !Blocked(t, k)
  {
    hide Bit, Trues, NoLostWakeup, RegistersOk;
    forall g, p | 0 <= g < n && 0 <= p < 32 && WaitsFor(t'.s, p, g) ensures p in t.ph {
      assert p != t.s.current ==> WaitsFor(t.s, p, g);
    }
  }

  /** Posting one unit that nobody waits for. */
  lemma PostPlain(s: State, f: nat)
    requires Good(s) && f < 32 && s.sem[f] == 0 && Waiter(s, f, 1, 1) == 32
    ensures Post(s, f, 1) == s.(sem := s.sem[f := 1])
    ensures forall g, p :: 0 <= p < 32 ==> (WaitsFor(Post(s, f, 1), p, g) <==> WaitsFor(s, p, g))
  {
    hide Waiter, Slot, Bit;
  }

  /** Posting one unit that process w waits for. */
  lemma PostHands(s: State, f: nat) returns (w: nat)
    requires Good(s) && f < 32 && s.sem[f] == 0 && Waiter(s, f, 1, 1) < 32 && NoLostWakeup(s, f)
    ensures w < 32 && w != s.current && WaitsFor(s, w, f)
    ensures Post(s, f, 1) == s.(pcb := s.pcb[w := s.pcb[w].(status := Ready)])
    ensures forall g, p :: 0 <= p < 32 && p != w ==> (WaitsFor(Post(s, f, 1), p, g) <==> WaitsFor(s, p, g))
    ensures forall g :: !WaitsFor(Post(s, f, 1), w, g)
  {
    hide Waiter, Slot, Bit;
    w := Slot(s.current, Waiter(s, f, 1, 1));
    assert Eligible(s, w, f, 1) && WaitsFor(s, w, f);
    assert s.sem == s.sem[f := 0];
  }

  /** The fork that is put down was held. */
  lemma WasHeld(t: Table, n: nat, k: nat, f: nat)
    requires TableOk(t, n) && k < |t.ph| && !Blocked(t, k) && 2 <= t.pc[k] && f < n && f == CallFork(t, n, k)
    ensures t.s.sem[f] == 0 && Trues(Holders(t, n, f)) == 1 && Holders(t, n, f)[k] && NoLostWakeup(t.s, f)
  {
    hide Trues, NoLostWakeup;
    LowerFirst(n, k);
    TruesOne(Holders(t, n, f), k);
  }

  /** A fork is put down and nobody waits for it. */
  lemma PutDownOk(t: Table, n: nat, u: Ctx, k: nat, f: nat)
    requires TableOk(t, n) && Calling(t, n, u, k, f) && t.pc[k] >= 2
    requires Waiter(WithCtx(t.s, u), f, 1, 1) == 32
    ensures TableOk(t.(s := Post(WithCtx(t.s, u), f, 1), pc := t.pc[k := (t.pc[k] + 1) % 4]), n)
  {
    hide Bit, CanRun, Holders, Trues, NoLostWakeup, Waiter, Post, WaitsFor, Good, RegistersOk, WaitersOk;
    Sizes(t.s);
    var s := WithCtx(t.s, u);
    var s' := Post(s, f, 1);
    var t' := t.(s := s', pc := t.pc[k := (t.pc[k] + 1) % 4]);
    WasHeld(t, n, k, f);
    SetRegisters(t.s, u);
    PostGood(s, f, 1);
    PostPlain(s, f);
    KeptSeats(t, t', n);
    forall g | 0 <= g < n ensures s'.sem[g] + Trues(Holders(t', n, g)) == 1 && NoLostWakeup(s', g) {
      PostNoLost(s, f, 1, g);
      HoldersPut(t, t', n, k, g);
      TruesUpdate(Holders(t, n, g), k, false);
    }
  }

  /** A fork is put down and handed to a philosopher who has been waiting for it. */
  lemma HandedOk(t: Table, n: nat, u: Ctx, k: nat, f: nat)
    requires TableOk(t, n) && Calling(t, n, u, k, f) && t.pc[k] >= 2
    requires Waiter(WithCtx(t.s, u), f, 1, 1) < 32
    ensures TableOk(t.(s := Post(WithCtx(t.s, u), f, 1), pc := t.pc[k := (t.pc[k] + 1) % 4]), n)
  {
    hide Bit, CanRun, Holders, Trues, NoLostWakeup, Waiter, Post, WaitsFor, RegistersOk, WaitersOk;
    var s := WithCtx(t.s, u);
    var s' := Post(s, f, 1);
    var t' := t.(s := s', pc := t.pc[k := (t.pc[k] + 1) % 4]);
    WasHeld(t, n, k, f);
    SetRegisters(t.s, u);
    PostGood(s, f, 1);
    var w := PostHands(s, f);
    SameWaiters(t.s, u);
    assert WaitsFor(t.s, w, f);
    var j := SeatOf(t, n, w, f);
    HandedSeats(t, t', n, k, j);
    forall g | 0 <= g < n ensures s'.sem[g] + Trues(Holders(t', n, g)) == 1 && NoLostWakeup(s', g) {
      PostNoLost(s, f, 1, g);
      HandedForks(t, t', n, k, j, f, g);
    }
  }

  /** A process that waits for a fork is a philosopher. */
  lemma SeatOf(t: Table, n: nat, w: nat, f: nat) returns (j: nat)
    requires TableOk(t, n) && w < 32 && f < n && WaitsFor(t.s, w, f)
    ensures j < |t.ph| && t.ph[j] == w && Blocked(t, j) && Wanted(t, n, j) == f && (t.pc[j] == 1 || t.pc[j] == 2)
  {
    j :| 0 <= j < |t.ph| && t.ph[j] == w;
    WaitingFor(t, n, j, f);
  }

  /** Everybody keeps their seat when philosopher j is woken. */
  lemma HandedSeats(t: Table, t': Table, n: nat, k: nat, j: nat)
    requires TableOk(t, n) && k < |t.ph| && j < |t.ph| && !Blocked(t, k)
    requires Good(t'.s) && RegistersOk(t'.s) && t' == t.(s := t'.s, pc := t.pc[k := (t.pc[k] + 1) % 4])
    requires t'.s.alloc == t.s.alloc && t'.s.pcb == t.s.pcb[t.ph[j] := t.s.pcb[t.ph[j]].(status := Ready)]
    requires forall g, p :: 0 <= p < 32 && WaitsFor(t'.s, p, g) ==> WaitsFor(t.s, p, g)
    ensures Seated(t', n) && WaitersOk(t', n)
    ensures forall i :: 0 <= i < |t.ph| ==> (Blocked(t', i) <==> i != j && Blocked(t, i))
  {
    hide Bit, Trues, NoLostWakeup, Good, RegistersOk;
    Sizes(t.s);
  }

  lemma HandedForks(t: Table, t': Table, n: nat, k: nat, j: nat, f: nat, g: nat)
    requires TableOk(t, n) && k < |t.ph| && j < |t.ph| && g < n && f < n
    requires !Blocked(t, k) && 2 <= t.pc[k] && f == CallFork(t, n, k)
    requires Blocked(t, j) && Wanted(t, n, j) == f && (t.pc[j] == 1 || t.pc[j] == 2)
    requires t'.ph == t.ph && t'.pc == t.pc[k := (t.pc[k] + 1) % 4] && t'.s.sem == t.s.sem && |t'.s.pcb| == 32
    requires forall i :: 0 <= i < |t.ph| ==> (Blocked(t', i) <==> i != j && Blocked(t, i))
    ensures t'.s.sem[g] + Trues(Holders(t', n, g)) == 1
  {
    hide Bit, Holders, Trues, NoLostWakeup, Good, RegistersOk, WaitersOk;
    Sizes(t.s);
    var m := t.(s := t'.s);
    HoldersGet(t, m, n, j, g);
    HoldersPut(m, t', n, k, g);
    TruesUpdate(Holders(t, n, g), j, true);
    TruesUpdate(Holders(m, n, g), k, false);
  }

  lemma WaitingFor(t: Table, n: nat, j: nat, f: nat)
    requires TableOk(t, n) && j < |t.ph| && f < n && WaitsFor(t.s, t.ph[j], f)
    ensures Blocked(t, j) && Wanted(t, n, j) == f && (t.pc[j] == 1 || t.pc[j] == 2)
  {
  }

  lemma ForkCallOk(t: Table, n: nat, u: Ctx)
    requires TableOk(t, n) && Legal(t, n, ForkCall(u))
    ensures TableOk(Apply(t, n, ForkCall(u)), n)
  {
    hide Bit, Wait, Post, TableOk, Good, RegistersOk, NoLostWakeup;
    TableIs(t, n);
    Sizes(t.s);
    var k := IndexOf(t.ph, t.s.current);
    var f := CallFork(t, n, k);
    ForkCallBounds(t, n, k);
    if t.pc[k] < 2 {
      if t.s.sem[f] >= 1 { GrantedOk(t, n, u, k, f); } else { BlocksOk(t, n, u, k, f); }
    } else {
      if Waiter(WithCtx(t.s, u), f, 1, 1) == 32 { PutDownOk(t, n, u, k, f); } else { HandedOk(t, n, u, k, f); }
    }
  }

  // ----------------------------------------------------------------- spawning

  lemma SpawnOk(t: Table, n: nat, u: Ctx, env: Env)
    requires TableOk(t, n) && Legal(t, n, Spawn(u, env))
    ensures TableOk(Apply(t, n, Spawn(u, env)), n)
  {
    hide Bit, Fork, TableOk, Holders, CanRun;
    TableIs(t, n);
    var s, c := WithCtx(t.s, u), FirstClear(t.s.alloc, 0);
    SetRegisters(t.s, u);
    ForkGood(s, env.childStack);
    ForkThere(s, env.childStack, t.sp);
    var s' := Fork(s, env.childStack);
    forall k | 0 <= k < |t.ph|
      ensures Exists(s', t.ph[k]) && s'.pcb[t.ph[k]].waiting == t.s.pcb[t.ph[k]].waiting
      ensures s'.pcb[t.ph[k]].status == Waiting <==> Blocked(t, k)
    {
      ForkThere(s, env.childStack, t.ph[k]);
    }
    SameWaiters(t.s, u);
    forall f, p | 0 <= f < n && 0 <= p < 32 && WaitsFor(s', p, f) ensures WaitsFor(t.s, p, f) {
      ForkWaits(s, env.childStack, f);
      assert WaitsFor(s, p, f);
    }
    ForkWaits(s, env.childStack, 0);
    StaysOk(t, s', n);
    Joins(t.(s := s'), n, c);
  }

  /** A live process that is not blocked sits down as the next philosopher. */
  lemma Joins(t: Table, n: nat, c: nat)
    requires TableOk(t, n) && |t.ph| < n && c < 32 && Exists(t.s, c) && c !in t.ph && c != t.sp
    requires t.s.pcb[c].status != Waiting
    ensures TableOk(t.(ph := t.ph + [c], pc := t.pc + [0]), n)
  {
    hide Bit, Trues;
    var t' := t.(ph := t.ph + [c], pc := t.pc + [0]);
    forall f | 0 <= f < n ensures Trues(Holders(t', n, f)) == Trues(Holders(t, n, f)) {
      assert Holders(t', n, f) == Holders(t, n, f) + [false];
      TruesAppend(Holders(t, n, f));
    }
  }

  lemma SpawnerReady(t: Table, n: nat, u: Ctx)
    requires Seated(t, n) && t.s.current != t.sp
    ensures OtherRunnable(WithCtx(t.s, u))
  {
    assert CanRun(WithCtx(t.s, u), t.sp);
  }

  // ------------------------------------------------------------------- the run

  /** Every move keeps the table in order. */
  lemma MoveOk(t: Table, n: nat, m: Move)
    requires TableOk(t, n) && Legal(t, n, m)
    ensures TableOk(Apply(t, n, m), n)
  {
    hide Call, Tick, TableOk;
    match m {
      case Clock =>
        TableIs(t, n);
        ClockUndisturbed(t, n);
        StaysOk(t, Tick(t.s), n);
      case ForkCall(u) => ForkCallOk(t, n, u);
      case OtherCall(u, id, env) => OtherOk(t, n, u, id, env);
      case Spawn(u, env) => SpawnOk(t, n, u, env);
    }
  }

  ghost predicate Interleaving(t: Table, n: nat, ms: seq<Move>)
    requires TableOk(t, n)
    decreases |ms|
  {
    ms == [] || (Legal(t, n, ms[0]) && (MoveOk(t, n, ms[0]); Interleaving(Apply(t, n, ms[0]), n, ms[1..])))
  }

  ghost function Reached(t: Table, n: nat, ms: seq<Move>): Table
    requires TableOk(t, n) && Interleaving(t, n, ms)
    decreases |ms|
  {
    if ms == [] then t else (MoveOk(t, n, ms[0]); Reached(Apply(t, n, ms[0]), n, ms[1..]))
  }

  /** Neighbours do not eat together, each fork's value plus its holders is one,
      and somebody is not blocked. */
  ghost predicate Peaceful(t: Table, n: nat)
    requires Seated(t, n)
  {
    && (forall i :: 0 <= i < |t.ph| && Right(n, i) < |t.ph| ==> !(Eats(t, i) && Eats(t, Right(n, i))))
    && (forall f :: 0 <= f < n ==> t.s.sem[f] + Trues(Holders(t, n, f)) == 1)
    && (t.ph != [] ==> exists k :: 0 <= k < |t.ph| && !Blocked(t, k))
  }

  /** Every state that any interleaving reaches is peaceful. */
  lemma {:induction false} DinnerIsSafe(t: Table, n: nat, ms: seq<Move>)
    requires TableOk(t, n) && Interleaving(t, n, ms)
    ensures TableOk(Reached(t, n, ms), n) && Peaceful(Reached(t, n, ms), n)
    decreases |ms|
  {
    hide Apply, Legal;
    if ms == [] {
      forall i | 0 <= i < |t.ph| && Right(n, i) < |t.ph| ensures !(Eats(t, i) && Eats(t, Right(n, i))) {
        MutualExclusion(t, n, i);
      }
      if t.ph != [] { SomebodyUnblocked(t, n); }
    } else {
      MoveOk(t, n, ms[0]);
      DinnerIsSafe(Apply(t, n, ms[0]), n, ms[1..]);
    }
  }

  // ---------------------------------------------------------------- overtaking

  /** The other philosopher beside fork f. */
  function Other(n: nat, i: nat, f: nat): nat
    requires 0 < n
  {
    if i != f then f else if f == 0 then n - 1 else f - 1
  }

  /** The fork a blocked philosopher waits for is with its other neighbour. */
  lemma HeldByOther(t: Table, n: nat, i: nat)
    requires TableOk(t, n) && i < |t.ph| && Blocked(t, i)
    ensures var f := Wanted(t, n, i);
            var j := Other(n, i, f);
            f < n && t.s.sem[f] == 0 && j != i && j < |t.ph| && Holders(t, n, f)[j]
  {
    Awaited(t, n, i);
    var f := Wanted(t, n, i);
    var b, j := Holders(t, n, f), Other(n, i, f);
    LowerFirst(n, i);
    if j >= |b| || !b[j] {
      forall k | 0 <= k < |b| ensures !b[k] { LowerFirst(n, k); }
      TruesNone(b);
    }
  }

  /** A move leaves a blocked philosopher where it is, or gives it its fork. */
  lemma StillAtTable(t: Table, n: nat, m: Move, i: nat)
    requires TableOk(t, n) && Legal(t, n, m) && i < |t.ph| && Blocked(t, i)
    ensures var t' := Apply(t, n, m);
            && |t.ph| <= |t'.ph| == |t'.pc| && t'.ph[i] == t.ph[i] && t'.pc[i] == t.pc[i]
  {
    hide Call, Tick, Trues, NoLostWakeup, Holders;
    if m.ForkCall? { assert t.ph[IndexOf(t.ph, t.s.current)] == t.s.current; }
  }

  /** From here on, philosopher j keeps fork f until philosopher i is given it. */
  ghost predicate ServedNext(t: Table, n: nat, ms: seq<Move>, i: nat, f: nat, j: nat)
    requires TableOk(t, n) && Interleaving(t, n, ms)
    decreases |ms|
  {
    && i < |t.ph| && j < |t.ph|
    && if !Blocked(t, i) then Holders(t, n, f)[i]
       else
         && Holders(t, n, f)[j] && !Holders(t, n, f)[i]
         && (ms == [] || (MoveOk(t, n, ms[0]); ServedNext(Apply(t, n, ms[0]), n, ms[1..], i, f, j)))
  }

  /** Nobody overtakes a waiting philosopher: whatever happens, the neighbour that
      holds the fork it waits for is the only one to hold it until it is handed over. */
  lemma {:induction false} NotOvertaken(t: Table, n: nat, ms: seq<Move>, i: nat)
    requires TableOk(t, n) && Interleaving(t, n, ms) && i < |t.ph| && Blocked(t, i)
    ensures ServedNext(t, n, ms, i, Wanted(t, n, i), Other(n, i, Wanted(t, n, i)))
    decreases |ms|
  {
    hide Apply, Legal, WaitersOk, ForksOk;
    HeldByOther(t, n, i);
    NotHeld(t, n, i);
    if ms != [] {
      var t' := Apply(t, n, ms[0]);
      MoveOk(t, n, ms[0]);
      StillAtTable(t, n, ms[0], i);
      if Blocked(t', i) {
        NotOvertaken(t', n, ms[1..], i);
      } else {
        HasFork(t, t', n, i);
      }
    }
  }

  lemma NotHeld(t: Table, n: nat, i: nat)
    requires TableOk(t, n) && i < |t.ph| && Blocked(t, i)
    ensures !Holders(t, n, Wanted(t, n, i))[i]
  {
    LowerFirst(n, i);
  }

  lemma HasFork(t: Table, t': Table, n: nat, i: nat)
    requires TableOk(t, n) && i < |t.ph| && Blocked(t, i) && TableOk(t', n) && i < |t'.ph| && t'.pc[i] == t.pc[i]
    requires !Blocked(t', i)
    ensures Holders(t', n, Wanted(t, n, i))[i]
  {
  }

  // ------------------------------------------------------------ laying the table

  /** Before philosophers are spawned: the forks below f have their one unit, the
      others at most one, and nobody waits for a fork. */
  ghost predicate Laid(t: Table, n: nat, f: nat) {
    && Seated(t, n) && t.ph == [] && f <= n
    && (forall g, p :: 0 <= g < n && 0 <= p < 32 ==> !WaitsFor(t.s, p, g))
    && (forall g :: 0 <= g < n ==> t.s.sem[g] <= 1 && (g < f ==> t.s.sem[g] == 1))
  }

  /** In a kernel without units and waiters, such as a booted one, no fork is laid. */
  lemma LaidNone(s: State, n: nat)
    requires Good(s) && RegistersOk(s) && 2 <= n <= 32
    requires forall f :: 0 <= f < n ==> s.sem[f] == 0
    requires forall p :: 0 <= p < 32 ==> !Exists(s, p) || s.pcb[p].status != Waiting
    ensures Laid(Table(s, [], [], s.current), n, 0)
  {
  }

  /** The spawner initialises the next fork, or anything else happens that is not
      about forks. */
  datatype Setup = Lay(u: Ctx) | Meanwhile(m: Move)

  ghost predicate LegalSetup(t: Table, n: nat, f: nat, m: Setup)
    requires Seated(t, n)
  {
    match m
    case Lay(u) => CtxOk(u) && t.s.current == t.sp && f < n && u.gpr[0] == f && u.gpr[1] == 1
    case Meanwhile(m) => (m.Clock? || m.OtherCall?) && Legal(t, n, m)
  }

  ghost function ApplySetup(t: Table, n: nat, f: nat, m: Setup): Table
    requires Seated(t, n) && LegalSetup(t, n, f, m)
  {
    match m
    case Lay(u) => t.(s := Call(WithCtx(t.s, u), 8, NO_ENV))
    case Meanwhile(m) => Apply(t, n, m)
  }

  /** How many forks are laid after a step. */
  function LaidAfter(f: nat, m: Setup): nat { if m.Lay? then f + 1 else f }

  lemma LayOk(t: Table, n: nat, f: nat, u: Ctx)
    requires Laid(t, n, f) && LegalSetup(t, n, f, Lay(u))
    ensures Laid(ApplySetup(t, n, f, Lay(u)), n, f + 1)
  {
    hide Bit, Good, RegistersOk, SemInit;
    Sizes(t.s);
    var s := WithCtx(t.s, u);
    SetRegisters(t.s, u);
    SameWaiters(t.s, u);
    SemInitGood(s, f, 1);
    InitLays(s, f);
    var t' := ApplySetup(t, n, f, Lay(u));
    assert t'.s == SemInit(s, f, 1);
    assert forall g, p :: 0 <= p < 32 ==> (WaitsFor(t'.s, p, g) <==> WaitsFor(s, p, g));
  }

  lemma MeanwhileOk(t: Table, n: nat, f: nat, m: Move)
    requires Laid(t, n, f) && LegalSetup(t, n, f, Meanwhile(m))
    ensures Laid(ApplySetup(t, n, f, Meanwhile(m)), n, f)
  {
    hide Call, Tick, Bit, Good, RegistersOk;
    match m {
      case Clock => ClockUndisturbed(t, n);
      case OtherCall(u, id, env) => OtherUndisturbed(t, n, u, id, env);
      case _ =>
    }
  }

  lemma SetupOk(t: Table, n: nat, f: nat, m: Setup)
    requires Laid(t, n, f) && LegalSetup(t, n, f, m)
    ensures Laid(ApplySetup(t, n, f, m), n, LaidAfter(f, m))
  {
    match m {
      case Lay(u) => LayOk(t, n, f, u);
      case Meanwhile(o) => MeanwhileOk(t, n, f, o);
    }
  }

  /** The steps lay all forks that are left, from f on. */
  ghost predicate SettingUp(t: Table, n: nat, f: nat, ms: seq<Setup>)
    requires Laid(t, n, f)
    decreases |ms|
  {
    if ms == [] then f == n
    else
      && LegalSetup(t, n, f, ms[0])
      && (SetupOk(t, n, f, ms[0]); SettingUp(ApplySetup(t, n, f, ms[0]), n, LaidAfter(f, ms[0]), ms[1..]))
  }

  ghost function SetUp(t: Table, n: nat, f: nat, ms: seq<Setup>): Table
    requires Laid(t, n, f) && SettingUp(t, n, f, ms)
    decreases |ms|
  {
    if ms == [] then t
    else (SetupOk(t, n, f, ms[0]); SetUp(ApplySetup(t, n, f, ms[0]), n, LaidAfter(f, ms[0]), ms[1..]))
  }

  /** The table is in order once the spawner has initialised the forks to one unit
      each, whatever else went on, and before it forks anybody. */
  lemma {:induction false} LaidTable(t: Table, n: nat, f: nat, ms: seq<Setup>)
    requires Laid(t, n, f) && SettingUp(t, n, f, ms)
    ensures TableOk(SetUp(t, n, f, ms), n)
    decreases |ms|
  {
    hide ApplySetup, LegalSetup;
    if ms == [] {
      forall g | 0 <= g < n ensures Trues(Holders(t, n, g)) == 0 { assert Holders(t, n, g) == []; }
    } else {
      SetupOk(t, n, f, ms[0]);
      LaidTable(ApplySetup(t, n, f, ms[0]), n, LaidAfter(f, ms[0]), ms[1..]);
    }
  }

  /** SEM_INIT(f, 1) on forks nobody has used gives each its one unit. */
  lemma InitLays(s: State, f: nat)
    requires Good(s) && RegistersOk(s) && f < 32 && s.sem[f] <= 1 && forall p :: 0 <= p < 32 ==> !WaitsFor(s, p, f)
    ensures SemInit(s, f, 1) == Result(s.(sem := s.sem[f := 1]), 1)
  {
    hide Bit, Waiter;
    NoWaiter(s, f, (1 + WORD - s.sem[f]) % WORD);
  }

  lemma NoWaiter(s: State, f: nat, x: nat)
    requires |s.pcb| == 32 && s.current < 32 && forall p :: 0 <= p < 32 ==> !WaitsFor(s, p, f)
    ensures Waiter(s, f, x, 1) == 32
  {
    var d := Waiter(s, f, x, 1);
    assert d < 32 ==> WaitsFor(s, Slot(s.current, d), f);
  }

  /** From boot on: once all forks are laid, every state of whatever interleaving
      follows is peaceful. */
  lemma DinnerFromBoot(s: State, n: nat, setup: seq<Setup>, ms: seq<Move>)
    requires Laid(Table(s, [], [], s.current), n, 0) && SettingUp(Table(s, [], [], s.current), n, 0, setup)
    ensures var t := SetUp(Table(s, [], [], s.current), n, 0, setup);
            && TableOk(t, n)
            && (Interleaving(t, n, ms) ==> TableOk(Reached(t, n, ms), n) && Peaceful(Reached(t, n, ms), n))
  {
    hide Laid, TableOk, Peaceful;
    var t := Table(s, [], [], s.current);
    LaidTable(t, n, 0, setup);
    if Interleaving(SetUp(t, n, 0, setup), n, ms) { DinnerIsSafe(SetUp(t, n, 0, setup), n, ms); }
  }
}
