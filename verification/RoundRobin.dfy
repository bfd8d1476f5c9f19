/** The round-robin scheduler weighted by priority: the exact schedule under timer
    ticks alone, and the bound on waiting whatever calls are made meanwhile. */
module RoundRobin {
  import opened Common
  import opened Descriptors
  import opened KernelState
  import opened KernelCalls

  /** q is running or could run. */
  predicate Competes(s: State, q: nat)
    requires |s.pcb| == 32 && q < 32
  {
    q == s.current || CanRun(s, q)
  }

  /** Ticks in one turn of process q. */
  function Turn(s: State, q: nat): (r: nat)
    requires |s.pcb| == 32 && q < 32
    ensures r >= 1
  {
    if s.pcb[q].basePriority >= 1 then s.pcb[q].basePriority else 1
  }

  /** Ticks that the competing slots at distances 0 to d - 1 behind p take in a round. */
  function Span(s: State, p: nat, d: nat): nat
    requires |s.pcb| == 32 && p < 32
  {
    if d == 0 then 0
    else Span(s, p, d - 1) + if Competes(s, Slot(p, d - 1)) then Turn(s, Slot(p, d - 1)) else 0
  }

  /** Length of a round. */
  function Round(s: State, p: nat): nat
    requires |s.pcb| == 32 && p < 32
  {
    Span(s, p, 32)
  }

  /** The current process is within a turn that a tick has begun. */
  ghost predicate InTurn(s: State) {
    Good(s) && 1 <= s.runtime <= Turn(s, s.current)
  }

  /** Ticks since p's last turn began, in a round that starts with p. */
  function Elapsed(s: State, p: nat): int
    requires |s.pcb| == 32 && s.current < 32 && p < 32
  {
    Span(s, p, Distance(p, s.current)) + s.runtime - 1
  }

  ghost predicate SameSlots(s: State, t: State)
    requires |s.pcb| == |t.pcb| == 32
  {
    forall q :: 0 <= q < 32 ==> (Competes(t, q) <==> Competes(s, q)) && Turn(t, q) == Turn(s, q)
  }

  lemma {:induction false} SpanSame(s: State, t: State, p: nat, d: nat)
    requires |s.pcb| == |t.pcb| == 32 && p < 32 && SameSlots(s, t)
    ensures Span(t, p, d) == Span(s, p, d)
  {
    if d > 0 { SpanSame(s, t, p, d - 1); }
  }

  lemma {:induction false} SpanGrows(s: State, p: nat, d: nat, e: nat)
    requires |s.pcb| == 32 && p < 32 && d <= e
    ensures Span(s, p, d) <= Span(s, p, e)
    decreases e - d
  {
    if d < e { SpanGrows(s, p, d, e - 1); }
  }

  lemma {:induction false} SpanGap(s: State, p: nat, d: nat, e: nat)
    requires |s.pcb| == 32 && p < 32 && d <= e <= 32
    requires forall x :: d <= x < e ==> !Competes(s, Slot(p, x))
    ensures Span(s, p, e) == Span(s, p, d)
    decreases e - d
  {
    if d < e { SpanGap(s, p, d, e - 1); }
  }

  lemma SlotShift(p: nat, c: nat, e: nat)
    requires p < 32 && c < 32
    ensures Slot(p, Distance(p, c) + e) == Slot(c, e)
    ensures Slot(c, 32 - Distance(p, c)) == p
    ensures Distance(p, c) + e < 32 ==> Distance(p, Slot(c, e)) == Distance(p, c) + e
  {
  }

  /** The stretch of a round that belongs to q. */
  lemma SlotSpan(s: State, p: nat, q: nat)
    requires |s.pcb| == 32 && p < 32 && q < 32 && Competes(s, q)
    ensures Span(s, p, Distance(p, q) + 1) == Span(s, p, Distance(p, q)) + Turn(s, q)
  {
    hide Distance, Competes;
  }

  /** The next process is the next competing slot in the round, or p again. */
  lemma NextInRound(s: State, p: nat)
    requires Good(s) && p < 32 && Competes(s, p)
    ensures var n, dc := NextPid(s), Distance(p, s.current);
            if n == p then forall x :: dc < x < 32 ==> !Competes(s, Slot(p, x))
            else Distance(p, n) > dc && CanRun(s, n) && forall x :: dc < x < Distance(p, n) ==> !Competes(s, Slot(p, x))
  {
    hide Slot, Distance, CanRun, Bit;
    var c, r := s.current, Ahead(s, 1);
    var dc := Distance(p, c);
    forall x | dc < x < 32 && x - dc < r ensures !Competes(s, Slot(p, x)) {
      SlotShift(p, c, x - dc);
      SlotOnce(c, x - dc);
      assert !CanRun(s, Slot(c, x - dc));
    }
    SlotShift(p, c, r);
    SlotOnce(c, r);
    if p != c {
      DistanceBack(p, c);
      AheadBound(s, p);
    }
  }

  lemma DistanceBack(p: nat, c: nat)
    requires p < 32 && c < 32 && p != c
    ensures Distance(p, c) + Distance(c, p) == 32
  {
  }

  /** The scan does not pass a process that can run. */
  lemma AheadBound(s: State, p: nat)
    requires |s.pcb| == 32 && s.current < 32 && p < 32 && p != s.current && CanRun(s, p)
    ensures Ahead(s, 1) <= Distance(s.current, p) < 32
  {
    hide Slot, CanRun;
    assert Slot(s.current, Distance(s.current, p)) == p;
  }

  lemma SpanZero(s: State, p: nat)
    requires |s.pcb| == 32 && p < 32
    ensures Span(s, p, 0) == 0 && Distance(p, p) == 0
  {
  }

  lemma TurnDone(s: State)
    requires InTurn(s)
    ensures s.runtime >= s.pcb[s.current].basePriority <==> s.runtime == Turn(s, s.current)
  {
  }

  /** A tick moves the round on by one. */
  lemma TickElapsed(s: State, p: nat)
    requires InTurn(s) && p < 32 && Competes(s, p)
    ensures InTurn(Tick(s)) && SameSlots(s, Tick(s))
    ensures 0 <= Elapsed(s, p) < Round(s, p) && Round(Tick(s), p) == Round(s, p)
    ensures Elapsed(Tick(s), p) == if Elapsed(s, p) + 1 == Round(s, p) then 0 else Elapsed(s, p) + 1
  {
    hide Ahead, Bit, Span, Slot, Distance, Tick, CanRun, Turn, SameSlots;
    var t, c := Tick(s), s.current;
    var dc := Distance(p, c);
    TickGood(s);
    AheadMeans(s);
    TickSlots(s);
    SpanGrows(s, p, dc + 1, 32);
    SpanSame(s, t, p, 32);
    SpanSame(s, t, p, Distance(p, t.current));
    SlotSpan(s, p, c);
    SpanZero(s, p);
    TurnDone(s);
    if s.runtime >= s.pcb[c].basePriority {
      NextInRound(s, p);
      var n := NextPid(s);
      if n == p {
        SpanGap(s, p, dc + 1, 32);
      } else {
        SpanGap(s, p, dc + 1, Distance(p, n));
        SlotSpan(s, p, n);
        SpanGrows(s, p, Distance(p, n) + 1, 32);
      }
    }
  }

  /** A tick changes neither who competes nor anyone's priority. */
  lemma TickSlots(s: State)
    requires InTurn(s)
    ensures |Tick(s).pcb| == 32 && InTurn(Tick(s)) && SameSlots(s, Tick(s))
    ensures Tick(s).current == if s.runtime >= s.pcb[s.current].basePriority then NextPid(s) else s.current
    ensures Tick(s).runtime == if s.runtime >= s.pcb[s.current].basePriority then 1 else s.runtime + 1
  {
    hide Ahead, Bit, Slot, Distance;
    TickGood(s);
    AheadMeans(s);
  }

  function Ticks(s: State, n: nat): State
    requires |s.pcb| == 32 && s.current < 32
    decreases n
  {
    if n == 0 then s
    else
      var t := Tick(s);
      if |t.pcb| == 32 && t.current < 32 then Ticks(t, n - 1) else t
  }

  /** Place within a round of r ticks. */
  function Phase(x: int, r: int): int
    requires r > 0
  {
    x % r
  }

  lemma {:induction false} TicksElapsed(s: State, p: nat, n: nat)
    requires InTurn(s) && p < 32 && Competes(s, p)
    ensures InTurn(Ticks(s, n)) && SameSlots(s, Ticks(s, n)) && Round(s, p) > 0
    ensures Elapsed(Ticks(s, n), p) == Phase(Elapsed(s, p) + n, Round(s, p))
    decreases n
  {
    hide Tick, Elapsed, Competes, Turn, Phase, Round;
    TickElapsed(s, p);
    if n == 0 { PhaseOf(Elapsed(s, p), Round(s, p)); }
    if n > 0 {
      var t := Tick(s);
      TicksElapsed(t, p, n - 1);
      RoundStep(Elapsed(s, p), n, Round(s, p));
    }
  }

  lemma PhaseOf(x: int, r: int)
    requires 0 <= x < r
    ensures Phase(x, r) == x
  {
  }

  lemma RoundStep(e: int, n: int, r: int)
    requires 0 <= e < r && n > 0
    ensures Phase(e + n, r) == Phase((if e + 1 == r then 0 else e + 1) + (n - 1), r)
  {
    if e + 1 == r {
      assert (e + n) == (n - 1) + r;
      ModShift(n - 1, r);
    }
  }

  lemma ModShift(a: int, r: int)
    requires r > 0
    ensures (a + r) % r == a % r
  {
    var q, m := a / r, a % r;
    var q', m' := (a + r) / r, (a + r) % r;
    Multiple(r, q' - q - 1, m - m');
  }

  lemma Multiple(r: int, k: int, d: int)
    requires r > 0 && r * k == d && -r < d < r
    ensures k == 0
  {
    Grows(r, k);
  }

  lemma Grows(r: int, k: int)
    requires r > 0
    ensures (k >= 1 ==> r * k >= r) && (k <= -1 ==> r * k <= -r)
  {
  }

  /** The exact schedule.  From a moment at which p's turn has just begun, process
      q runs after n ticks exactly if n, modulo the length of a round, falls into
      the stretch of the round that belongs to q's slot, which is as long as
      max(1, its priority). */
  lemma Schedule(s: State, p: nat, n: nat, q: nat)
    requires InTurn(s) && p == s.current && s.runtime == 1 && q < 32 && Competes(s, q)
    ensures Round(s, p) > 0
    ensures Ticks(s, n).current == q
        <==> Span(s, p, Distance(p, q)) <= Phase(n, Round(s, p)) < Span(s, p, Distance(p, q)) + Turn(s, q)
  {
    hide Tick, Ticks, Span, Distance, Phase, Turn, Bit;
    TicksElapsed(s, p, n);
    var t := Ticks(s, n);
    var c := t.current;
    assert Competes(t, c) && Turn(t, c) == Turn(s, c);
    SpanSame(s, t, p, Distance(p, c));
    SlotSpan(s, p, c);
    SlotSpan(s, p, q);
    SpanZero(s, p);
    Apart(p, c, q);
    if Distance(p, c) < Distance(p, q) {
      SpanGrows(s, p, Distance(p, c) + 1, Distance(p, q));
    } else if Distance(p, q) < Distance(p, c) {
      SpanGrows(s, p, Distance(p, q) + 1, Distance(p, c));
    }
  }

  lemma Apart(p: nat, c: nat, q: nat)
    requires p < 32 && c < 32 && q < 32
    ensures Distance(p, c) == Distance(p, q) <==> c == q
  {
  }

  /** A process is dispatched again after exactly one round. */
  lemma DispatchedEveryRound(s: State, p: nat, n: nat)
    requires InTurn(s) && p == s.current && s.runtime == 1
    ensures Round(s, p) > 0
    ensures Ticks(s, n).current == p && Ticks(s, n).runtime == 1 <==> Phase(n, Round(s, p)) == 0
  {
    hide Tick, Ticks;
    TicksElapsed(s, p, n);
    var t := Ticks(s, n);
    SpanSame(s, t, p, Distance(p, t.current));
    var c := t.current;
    if c != p {
      SpanGrows(s, p, 1, Distance(p, c));
      assert Span(s, p, 1) == Turn(s, p);
    }
  }

  // ------------------------------------------- waiting among arbitrary events

  /** Sum of (cap + 1) over the d slots from c on, around the table. */
  function CapSpan(cap: seq<nat>, c: nat, d: nat): nat
    requires |cap| == 32
  {
    if d == 0 then 0 else CapSpan(cap, c, d - 1) + cap[Slot(c, d - 1)] + 1
  }

  lemma {:induction false} CapSplit(cap: seq<nat>, c: nat, d: nat, e: nat)
    requires |cap| == 32 && c < 32 && d + e <= 32 && 1 <= d
    ensures CapSpan(cap, c, d + e) == CapSpan(cap, c, d) + CapSpan(cap, Slot(c, d), e)
    decreases e
  {
    if e > 0 {
      CapSplit(cap, c, d, e - 1);
      SlotPlus(c, d, e - 1);
    }
  }

  lemma SlotPlus(c: nat, d: nat, e: nat)
    requires c < 32 && d <= 32 && e <= 32
    ensures Slot(Slot(c, d), e) == Slot(c, d + e)
  {
  }

  lemma {:induction false} CapAtLeast(cap: seq<nat>, c: nat, d: nat)
    requires |cap| == 32 && c < 32 && 1 <= d
    ensures CapSpan(cap, c, d) >= cap[c] + 1
    decreases d
  {
    if d > 1 { CapAtLeast(cap, c, d - 1); }
  }

  /** p could run but does not, and no slot holds a process of higher priority
      than its cap. */
  ghost predicate Waits(s: State, p: nat, cap: seq<nat>)
    requires |cap| == 32
  {
    && |s.pcb| == 32 && p < 32 && p != s.current && CanRun(s, p)
    && forall q :: 0 <= q < 32 ==> cap[q] >= 1 && s.pcb[q].basePriority <= cap[q]
  }

  /** The current turn is no longer than its slot allows. */
  ghost predicate TurnOk(s: State, cap: seq<nat>)
    requires |cap| == 32
  {
    Good(s) && RegistersOk(s) && 0 <= s.runtime <= cap[s.current]
  }

  /** What p still has to wait for at most: the slots from the current one up to
      its own, less what has been used of the current turn. */
  function ToWait(s: State, p: nat, cap: seq<nat>): int
    requires |cap| == 32 && s.current < 32 && p < 32
  {
    CapSpan(cap, s.current, Distance(s.current, p)) - s.runtime
  }

  /** Handing over brings the processor closer to p. */
  lemma NextCloser(s: State, stat: Status, p: nat, cap: seq<nat>)
    requires |s.pcb| == 32 && s.current < 32 && |cap| == 32 && p < 32 && p != s.current && CanRun(s, p)
    requires forall i :: 0 <= i < 32 && CanRun(s, i) ==> s.pcb[i].pid == i
    ensures var t := Next(s, stat);
            && t.runtime == 0 && t.current < 32
            && (t.current != p ==> CapSpan(cap, t.current, Distance(t.current, p)) + cap[s.current] + 1
                                   <= CapSpan(cap, s.current, Distance(s.current, p)))
  {
    hide Slot, Distance, CanRun, CapSpan;
    var c, r, d := s.current, Ahead(s, 1), Distance(s.current, p);
    AheadBound(s, p);
    AheadMeans(s);
    SlotOnce(c, r);
    CapAtLeast(cap, c, r);
    var n := Slot(c, r);
    Remaining(c, r, p);
    if n != p { CapSplit(cap, c, r, d - r); }
  }

  lemma Remaining(c: nat, r: nat, p: nat)
    requires c < 32 && p < 32 && 1 <= r <= Distance(c, p)
    ensures Slot(c, r) != p ==> r < Distance(c, p) && Distance(Slot(c, r), p) == Distance(c, p) - r
  {
  }

  /** Calls other than YIELD, EXIT and SEM_WAIT leave the caller running. */
  lemma CallStays(s: State, id: nat, env: Env)
    requires Good(s) && RegistersOk(s) && Defined(s, id) && id != 0 && id != 4 && id != 0xA
    ensures Call(s, id, env).current == s.current && Call(s, id, env).runtime == s.runtime
  {
    hide Close, OpenSlot, OpenPipe, Transfer, Waiter, ShareFrom, FirstClear;
  }

  lemma PidsOk(s: State)
    requires Good(s)
    ensures forall i :: 0 <= i < 32 && CanRun(s, i) ==> s.pcb[i].pid == i
  {
  }

  lemma LeavePids(s: State)
    requires Good(s)
    ensures forall i :: 0 <= i < 32 && CanRun(Leave(s), i) ==> Leave(s).pcb[i].pid == i
  {
    hide Leave, Bit;
    LeaveKeeps(s);
  }

  /** One event: unless p gets the processor, what it still has to wait for does
      not grow, and shrinks with every tick. */
  lemma StepCloser(s: State, e: Event, p: nat, cap: seq<nat>)
    requires |cap| == 32 && Waits(s, p, cap) && TurnOk(s, cap) && Possible(s, e)
    requires e.SystemCall? ==> Safe(s, e.id, e.env)
    ensures var t := Step(s, e);
            && Good(t) && RegistersOk(t)
            && (t.current != p ==>
                  TurnOk(t, cap) && ToWait(t, p, cap) + (if e.TimerTick? then 1 else 0) <= ToWait(s, p, cap))
  {
    hide CapSpan, Distance, Slot, Bit, Next, Leave, Wait, CanRun, OtherRunnable;
    PidsOk(s);
    match e {
      case TimerTick =>
        TickGood(s);
        NextCloser(s, Ready, p, cap);
      case SystemCall(id, env) =>
        CallGood(s, id, env);
        if id == 0 {
          NextCloser(s, Ready, p, cap);
        } else if id == 4 {
          LeaveKeeps(s);
          LeavePids(s);
          NextCloser(Leave(s), Terminated, p, cap);
        } else if id == 0xA {
          WaitCloser(s, s.ctx.gpr[0], s.ctx.gpr[1], p, cap);
        } else {
          CallStays(s, id, env);
        }
    }
  }

  lemma WaitCloser(s: State, id: nat, x: nat, p: nat, cap: seq<nat>)
    requires |cap| == 32 && Waits(s, p, cap) && TurnOk(s, cap) && id < 32
    ensures var t := Wait(s, id, x);
            || (t.current == s.current && t.runtime == s.runtime)
            || (t.runtime == 0 && t.current < 32 &&
                (t.current != p ==> CapSpan(cap, t.current, Distance(t.current, p)) + cap[s.current] + 1
                                    <= CapSpan(cap, s.current, Distance(s.current, p))))
  {
    hide CapSpan, Distance, Slot, Bit, Next;
    if s.sem[id] < x { NextCloser(Take(s, id, x), Waiting, p, cap); }
  }

  function TickCount(es: seq<Event>): nat {
    if es == [] then 0 else (if es[0].TimerTick? then 1 else 0) + TickCount(es[1..])
  }

  /** p waits in every state of the run. */
  ghost predicate WaitsThrough(s: State, es: seq<Event>, p: nat, cap: seq<nat>)
    requires |cap| == 32
    decreases |es|
  {
    Waits(s, p, cap) && (es == [] || (Possible(s, es[0]) && WaitsThrough(Step(s, es[0]), es[1..], p, cap)))
  }

  /** However yields, waits, forks, exits and wake-ups are mixed in, a process that
      stays runnable sees fewer ticks go by than the sum of (cap + 1) over the
      slots from the current one up to its own. */
  lemma {:induction false} WaitBounded(s: State, es: seq<Event>, p: nat, cap: seq<nat>)
    requires |cap| == 32 && WaitsThrough(s, es, p, cap) && TurnOk(s, cap) && SafeRun(s, es)
    ensures TickCount(es) < ToWait(s, p, cap) <= CapSpan(cap, s.current, Distance(s.current, p))
    decreases |es|
  {
    hide Step, TurnOk, Possible, Safe;
    TurnIs(s, p, cap);
    if es != [] {
      StepCloser(s, es[0], p, cap);
      WaitBounded(Step(s, es[0]), es[1..], p, cap);
    }
  }

  lemma TurnIs(s: State, p: nat, cap: seq<nat>)
    requires |cap| == 32 && Waits(s, p, cap) && TurnOk(s, cap)
    ensures 0 <= s.runtime && s.current < 32 && ToWait(s, p, cap) > 0
  {
    CapAtLeast(cap, s.current, Distance(s.current, p));
  }
}
