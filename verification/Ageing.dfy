/** The priority-ageing scheduler (kernel/hilevel.c under SCHEDULE_AGES): each tick
    every process that could run grows one older, and the highest aged priority
    wins. */
module Ageing {
  import opened KernelState

  /** aged_priority */
  function Aged(s: State, i: nat): int
    requires i < |s.pcb|
  {
    s.pcb[i].basePriority + s.pcb[i].age
  }

  function Older(s: State, i: nat): State
    requires i < |s.pcb|
  {
    s.(pcb := s.pcb[i := s.pcb[i].(age := s.pcb[i].age + 1)])
  }

  /** The loop of schedule from distance d behind the current process on, with
      `best` the best process so far: the older processes and the winner. */
  function AgeScan(s: State, d: nat, best: nat): (r: (State, nat))
    requires |s.pcb| == 32 && s.current < 32 && 1 <= d <= 32 && best < 32
    ensures |r.0.pcb| == 32 && r.1 < 32 && r.0.current == s.current
    decreases 32 - d
  {
    var i := Slot(s.current, d);
    if d == 32 then (s, best)
    else if CanRun(s, i) then
      var t := Older(s, i);
      AgeScan(t, d + 1, if Aged(t, i) > Aged(t, best) then i else best)
    else AgeScan(s, d + 1, best)
  }

  /** schedule at a timer tick. */
  function AgeTick(s: State): (r: State)
    requires |s.pcb| == 32 && s.current < 32
    ensures |r.pcb| == 32
  {
    var (t, best) := AgeScan(s, 1, s.current);
    if best != s.current then Switch(t.(pcb := t.pcb[best := t.pcb[best].(age := 0)]), best, Ready) else t
  }

  /** One turn of the scanning loop, and its end. */
  lemma ScanTurn(s: State, d: nat, best: nat)
    requires |s.pcb| == 32 && s.current < 32 && 1 <= d <= 32 && best < 32
    ensures var i := Slot(s.current, d);
            && (d == 32 ==> AgeScan(s, d, best) == (s, best))
            && (d < 32 && !CanRun(s, i) ==> AgeScan(s, d, best) == AgeScan(s, d + 1, best))
            && (d < 32 && CanRun(s, i) ==>
                  AgeScan(s, d, best)
                  == AgeScan(Older(s, i), d + 1, if Aged(Older(s, i), i) > Aged(Older(s, i), best) then i else best))
  {
  }

  /** The scan ages exactly the processes that can run, from distance d on. */
  lemma {:induction false} ScanAges(s: State, d: nat, best: nat)
    requires |s.pcb| == 32 && s.current < 32 && 1 <= d <= 32 && best < 32
    ensures var t := AgeScan(s, d, best).0;
            && t == s.(pcb := t.pcb)
            && forall i :: 0 <= i < 32 ==>
                 t.pcb[i]
                 == s.pcb[i].(age := s.pcb[i].age + if CanRun(s, i) && Distance(s.current, i) >= d then 1 else 0)
    decreases 32 - d
  {
    hide Slot, Distance, CanRun;
    if d < 32 {
      var i := Slot(s.current, d);
      DistanceOf(s.current, i, d);
      SlotOnce(s.current, d);
      if CanRun(s, i) {
        SameRun(s, i);
        ScanAges(Older(s, i), d + 1, if Aged(Older(s, i), i) > Aged(Older(s, i), best) then i else best);
      } else {
        ScanAges(s, d + 1, best);
      }
    } else {
      DistanceShort(s.current);
    }
  }

  /** Of the processes from distance d on that can run, and of `best`, none beats
      the winner. */
  lemma {:induction false} ScanWinner(s: State, d: nat, best: nat)
    requires |s.pcb| == 32 && s.current < 32 && 1 <= d <= 32 && best < 32
    requires best == s.current || (CanRun(s, best) && Distance(s.current, best) < d)
    ensures var (t, w) := AgeScan(s, d, best);
            && (w == best || (CanRun(s, w) && Distance(s.current, w) >= d))
            && Aged(t, w) >= Aged(t, best)
            && forall i :: 0 <= i < 32 && CanRun(s, i) && Distance(s.current, i) >= d ==> Aged(t, w) >= Aged(t, i)
    decreases 32 - d
  {
    hide Slot, Distance, CanRun;
    ScanAges(s, d, best);
    if d < 32 {
      var i := Slot(s.current, d);
      DistanceOf(s.current, i, d);
      SlotOnce(s.current, d);
      if CanRun(s, i) {
        SameRun(s, i);
        ScanWinner(Older(s, i), d + 1, if Aged(Older(s, i), i) > Aged(Older(s, i), best) then i else best);
      } else {
        ScanWinner(s, d + 1, best);
      }
    } else {
      DistanceShort(s.current);
    }
  }

  lemma SameRun(s: State, i: nat)
    requires |s.pcb| == 32 && i < 32
    ensures forall j :: 0 <= j < 32 ==> (CanRun(Older(s, i), j) <==> CanRun(s, j))
  {
  }

  lemma DistanceOf(c: nat, i: nat, d: nat)
    requires c < 32 && 1 <= d < 32 && i == Slot(c, d)
    ensures Distance(c, i) == d && i != c
    ensures forall j :: 0 <= j < 32 && Distance(c, j) == d ==> j == i
  {
  }

  lemma DistanceShort(c: nat)
    requires c < 32
    ensures forall j :: 0 <= j < 32 ==> Distance(c, j) < 32
  {
  }

  // ---------------------------------------------------------- bounded waiting

  /** The processes that compete for the processor. */
  function Competing(s: State): set<nat>
    requires |s.pcb| == 32
  {
    set i | 0 <= i < 32 && (CanRun(s, i) || i == s.current)
  }

  /** The running process has age 0 and nobody's base priority exceeds `most`. */
  ghost predicate Fair(s: State, most: int) {
    && Good(s) && s.pcb[s.current].age == 0
    && forall i :: 0 <= i < 32 && i in Competing(s) ==> s.pcb[i].age >= 0 && s.pcb[i].basePriority <= most
  }

  /** Processes that would be preferred to p. */
  function Rivals(s: State, p: nat): set<nat>
    requires |s.pcb| == 32 && p < 32
  {
    set i | 0 <= i < 32 && i != p && CanRun(s, i) && Aged(s, i) >= Aged(s, p)
  }

  /** One tick: the competitors stay, and a waiting one either gets the processor
      or grows older. */
  lemma AgeTickKeeps(s: State, most: int, p: nat)
    requires Fair(s, most) && p < 32 && CanRun(s, p)
    ensures Fair(AgeTick(s), most) && Competing(AgeTick(s)) == Competing(s)
    ensures var t := AgeTick(s);
            && t.pcb[p].basePriority == s.pcb[p].basePriority
            && (t.current == p || (CanRun(t, p) && Aged(t, p) == Aged(s, p) + 1))
    ensures forall q :: 0 <= q < 32 ==> Registers(AgeTick(s), q) == Registers(s, q)
  {
    hide Distance, Slot, Bit, AgeScan;
    TickResult(s);
  }

  /** The state and the winner of one tick. */
  lemma TickResult(s: State)
    requires Good(s)
    ensures var t, w := AgeTick(s), AgeScan(s, 1, s.current).1;
            && t == s.(pcb := t.pcb, current := w, ctx := Registers(s, w)) && w < 32 && (w == s.current || CanRun(s, w))
            && (forall i :: 0 <= i < 32 && i != w && i != s.current ==>
                  t.pcb[i] == s.pcb[i].(age := s.pcb[i].age + if CanRun(s, i) then 1 else 0))
            && t.pcb[w] == s.pcb[w].(status := Executing, age := if w == s.current then s.pcb[w].age else 0)
            && (w != s.current ==> t.pcb[s.current] == s.pcb[s.current].(status := Ready, ctx := s.ctx))
            && forall i :: 0 <= i < 32 && CanRun(s, i) ==> Aged(s, w) >= Aged(s, i) + if w == s.current then 1 else 0
  {
    hide Distance, Slot, Bit, CanRun, AgeScan, Aged;
    WinnerIs(s);
    var (u, w) := AgeScan(s, 1, s.current);
    assert AgeTick(s) == if w != s.current then Switch(u.(pcb := u.pcb[w := u.pcb[w].(age := 0)]), w, Ready) else u;
  }

  /** The older processes and the winner of one tick. */
  lemma WinnerIs(s: State)
    requires Good(s)
    ensures var (u, w) := AgeScan(s, 1, s.current);
            && u == s.(pcb := u.pcb) && w < 32 && |u.pcb| == 32 && s.pcb[w].pid == w && (w == s.current || CanRun(s, w))
            && (forall i :: 0 <= i < 32 && i != s.current ==>
                  u.pcb[i] == s.pcb[i].(age := s.pcb[i].age + if CanRun(s, i) then 1 else 0))
            && u.pcb[s.current] == s.pcb[s.current]
            && forall i :: 0 <= i < 32 && CanRun(s, i) ==> Aged(s, w) >= Aged(s, i) + if w == s.current then 1 else 0
  {
    hide Distance, Slot, Bit, AgeScan;
    ScanAges(s, 1, s.current);
    ScanWinner(s, 1, s.current);
    DistancePositive(s.current);
    assert !CanRun(s, s.current);
  }

  lemma DistancePositive(c: nat)
    requires c < 32
    ensures forall j :: 0 <= j < 32 && j != c ==> Distance(c, j) >= 1
  {
  }

  /** Once p's aged priority has reached the highest base priority, each tick
      gives the processor to p or loses it a rival for good. */
  lemma RivalsShrink(s: State, most: int, p: nat)
    requires Fair(s, most) && p < 32 && CanRun(s, p) && Aged(s, p) >= most
    ensures AgeTick(s).current == p || |Rivals(AgeTick(s), p)| < |Rivals(s, p)|
  {
    hide Distance, Slot, Bit, AgeScan, AgeTick;
    TickResult(s);
    var t := AgeTick(s);
    var w := AgeScan(s, 1, s.current).1;
    if w != p {
      assert w in Rivals(s, p) && Rivals(t, p) <= Rivals(s, p) - {w};
      SmallerSet(Rivals(t, p), Rivals(s, p) - {w});
    }
  }

  lemma {:induction false} SmallerSet(a: set<nat>, b: set<nat>)
    requires a <= b
    ensures |a| <= |b|
    decreases |a|
  {
    if a != {} {
      var x :| x in a;
      SmallerSet(a - {x}, b - {x});
    }
  }

  function AgeTicks(s: State, n: nat): State
    requires |s.pcb| == 32 && s.current < 32
    decreases n
  {
    if n == 0 then s
    else
      var t := AgeTick(s);
      if |t.pcb| == 32 && t.current < 32 then AgeTicks(t, n - 1) else t
  }

  /** Process p runs after at most n ticks. */
  ghost predicate RunsWithin(s: State, p: nat, n: int)
    requires |s.pcb| == 32 && s.current < 32
  {
    exists k: nat :: 1 <= k <= n && AgeTicks(s, k).current == p
  }

  lemma Later(s: State, p: nat, n: int)
    requires Good(s) && Good(AgeTick(s)) && (AgeTick(s).current == p || RunsWithin(AgeTick(s), p, n - 1)) && n >= 1
    ensures RunsWithin(s, p, n)
  {
    var t := AgeTick(s);
    if t.current == p {
      assert AgeTicks(t, 0) == t;
      assert AgeTicks(s, 1).current == p;
    } else {
      var k: nat :| 1 <= k <= n - 1 && AgeTicks(t, k).current == p;
      assert AgeTicks(s, k + 1).current == p;
    }
  }

  lemma {:induction false} LastRivals(s: State, most: int, p: nat)
    requires Fair(s, most) && p < 32 && CanRun(s, p) && Aged(s, p) >= most
    ensures RunsWithin(s, p, |Rivals(s, p)| + 1)
    decreases |Rivals(s, p)|
  {
    hide AgeTick, CanRun, Aged;
    var t := AgeTick(s);
    AgeTickKeeps(s, most, p);
    RivalsShrink(s, most, p);
    if t.current != p {
      LastRivals(t, most, p);
      Longer(t, p, |Rivals(t, p)| + 1, |Rivals(s, p)|);
    }
    Later(s, p, |Rivals(s, p)| + 1);
  }

  lemma Longer(s: State, p: nat, n: int, n': int)
    requires |s.pcb| == 32 && s.current < 32 && n <= n' && RunsWithin(s, p, n)
    ensures RunsWithin(s, p, n')
  {
    var k: nat :| 1 <= k <= n && AgeTicks(s, k).current == p;
    assert 1 <= k <= n' && AgeTicks(s, k).current == p;
  }

  /** With N competing processes whose base priorities are at most M, a waiting
      process of base priority b and age a >= 0 runs within (M - b - a) + N - 1
      ticks, or N - 1 if its aged priority has passed M already. */
  lemma {:induction false} BoundedWaiting(s: State, most: int, p: nat)
    requires Fair(s, most) && p < 32 && CanRun(s, p)
    ensures var togo := if Aged(s, p) < most then most - Aged(s, p) else 0;
            RunsWithin(s, p, togo + |Competing(s)| - 1)
    decreases most - Aged(s, p)
  {
    hide AgeTick, CanRun, Aged, Bit;
    var n := |Competing(s)|;
    RivalsFew(s, p);
    if Aged(s, p) >= most {
      LastRivals(s, most, p);
      Longer(s, p, |Rivals(s, p)| + 1, n - 1);
    } else {
      AgeTickKeeps(s, most, p);
      var t := AgeTick(s);
      if t.current != p { BoundedWaiting(t, most, p); }
      Later(s, p, most - Aged(s, p) + n - 1);
    }
  }

  /** Neither p nor the running process is among the rivals. */
  lemma RivalsFew(s: State, p: nat)
    requires Good(s) && p < 32 && CanRun(s, p)
    ensures |Rivals(s, p)| + 2 <= |Competing(s)|
  {
    assert p in Competing(s) && s.current in Competing(s) && p != s.current;
    assert Rivals(s, p) <= Competing(s) - {p} - {s.current};
    SmallerSet(Rivals(s, p), Competing(s) - {p} - {s.current});
  }

  /** In particular within (M - b) + N ticks, whatever its age. */
  lemma BoundedByBase(s: State, most: int, p: nat)
    requires Fair(s, most) && p < 32 && CanRun(s, p)
    ensures RunsWithin(s, p, most - s.pcb[p].basePriority + |Competing(s)|)
  {
    BoundedWaiting(s, most, p);
    var togo := if Aged(s, p) < most then most - Aged(s, p) else 0;
    assert p in Competing(s);
    Longer(s, p, togo + |Competing(s)| - 1, most - s.pcb[p].basePriority + |Competing(s)|);
  }
}
