/** Whole runs of the scheduler: exact waiting times, sleepers, and the queue's bound. */
module SchedulerRuns {
  import opened SchedulerModel
  import opened SchedulerLaws

  /** The step takes the front of the ready queue. */
  predicate Switches(s: Sched, step: Step)
    requires Shape(s)
  {
    match step
    case DoDispatch => s.queue != []
    case DoSchedule => s.enabled && s.queue != []
    case DoTick(now) =>
      var w := Wake(Charge(s), now, 0);
      s.enabled && w.queue != [] && s.tasks[s.current].tid != 0
    case DoBlock(_) => s.queue != []
    case DoSleep(_, _) => s.enabled && s.queue != []
    case DoExit => s.queue != []
    case _ => false
  }

  lemma TickMoves(s: Sched, now: Word64)
    requires Inv(s)
    ensures var r := Tick(s, now);
      if !Switches(s, DoTick(now)) then s.queue <= r.queue && r.current == s.current
      else s.queue != [] ==> r.current == s.queue[0] && s.queue[1..] <= r.queue
  {
    hide Wake, Dispatch, Core, Distinct;
    if s.enabled {
      var c := Charge(s);
      ChargeKeeps(s);
      WakeKeeps(c, now, 0);
      WakeExact(c, now, 0);
      var w := Wake(c, now, 0);
      CoreOf(w);
      DispatchKeeps(w);
      assert w.queue == s.queue + DueFrom(c.tasks, now, 0);
      if s.queue != [] {
        assert w.queue[1..] == s.queue[1..] + DueFrom(c.tasks, now, 0);
      }
    }
  }

  /** What one step does to the queue: nothing overtakes. */
  lemma StepMoves(s: Sched, step: Step)
    requires Inv(s) && Possible(step) && Guard(s, step)
    ensures var r := Apply(s, step);
      if !Switches(s, step) then s.queue <= r.queue && r.current == s.current
      else s.queue != [] ==> r.current == s.queue[0] && s.queue[1..] <= r.queue
  {
    hide Wake, Dispatch, Unblock, Create, Core, Distinct;
    match step
    case DoDispatch => CoreOf(s); DispatchKeeps(s);
    case DoSchedule => CoreOf(s); DispatchKeeps(s);
    case DoCreate(stack) => CreateKeeps(s, stack);
    case DoTick(now) => TickMoves(s, now);
    case DoBlock(reason) =>
      var i := s.tasks[s.current].(state := Blocked, blockReason := reason);
      LeaveKeeps(s, i);
      DispatchKeeps(s.(tasks := s.tasks[s.current := i]));
    case DoUnblock(t) => UnblockKeeps(s, t);
    case DoSleep(now, ms) =>
      var i := s.tasks[s.current].(wakeTime := Wrap64(now + ms), state := Sleeping);
      LeaveKeeps(s, i);
      DispatchKeeps(s.(tasks := s.tasks[s.current := i]));
    case DoExit =>
      LeaveKeeps(s, s.tasks[s.current].(state := Zombie));
      DispatchKeeps(SetState(s, s.current, Zombie));
    case DoEnable(on) =>
  }

  lemma ChargeKeeps(s: Sched)
    requires Inv(s)
    ensures Inv(Charge(s))
  {
  }

  // ---- Runs ----

  /** The state after the steps, every one of them within its guard. */
  function Final(s: Sched, steps: seq<Step>): (r: Sched)
    requires Shape(s) && forall i :: 0 <= i < |steps| ==> Possible(steps[i])
    ensures Shape(r)
  {
    if steps == [] then s
    else
      var p := Final(s, steps[..|steps| - 1]);
      ApplyShape(p, steps[|steps| - 1]);
      Apply(p, steps[|steps| - 1])
  }

  ghost predicate Guarded(s: Sched, steps: seq<Step>)
    requires Shape(s)
  {
    && (forall i :: 0 <= i < |steps| ==> Possible(steps[i]))
    && forall i :: 0 <= i < |steps| ==> Guard(Final(s, steps[..i]), steps[i])
  }

  /** How often a task has been taken from the queue. */
  function Turns(s: Sched, steps: seq<Step>): nat
    requires Shape(s) && forall i :: 0 <= i < |steps| ==> Possible(steps[i])
  {
    if steps == [] then 0
    else
      var n := |steps| - 1;
      Turns(s, steps[..n]) + if Switches(Final(s, steps[..n]), steps[n]) then 1 else 0
  }

  lemma ApplyShape(s: Sched, step: Step)
    requires Shape(s) && Possible(step)
    ensures Shape(Apply(s, step))
  {
    hide Wake, Dispatch;
    match step
    case DoDispatch => DispatchInRange(s);
    case DoSchedule => DispatchInRange(s);
    case DoTick(now) =>
      WakeShape(Charge(s), now, 0);
      DispatchInRange(Wake(Charge(s), now, 0));
    case DoBlock(reason) => DispatchInRange(s.(tasks := s.tasks[s.current := s.tasks[s.current].(state := Blocked,
      blockReason := reason)]));
    case DoSleep(now, ms) =>
      DispatchInRange(s.(tasks := s.tasks[s.current := s.tasks[s.current].(wakeTime := Wrap64(now + ms),
        state := Sleeping)]));
    case DoExit => DispatchInRange(SetState(s, s.current, Zombie));
    case _ =>
  }

  lemma DispatchInRange(s: Sched)
    requires Shape(s)
    ensures Shape(Dispatch(s))
  {
  }

  lemma GuardedPrefix(s: Sched, steps: seq<Step>, n: nat)
    requires Shape(s) && Guarded(s, steps) && n <= |steps|
    ensures Guarded(s, steps[..n])
  {
    forall i | 0 <= i < n
      ensures Guard(Final(s, steps[..n][..i]), steps[..n][i])
    {
      assert steps[..n][..i] == steps[..i];
    }
  }

  /** Every run within the guards keeps the invariant. */
  lemma {:induction false} RunKeeps(s: Sched, steps: seq<Step>)
    requires Inv(s) && Guarded(s, steps)
    ensures Inv(Final(s, steps))
  {
    hide Guard, Apply;
    if steps != [] {
      var n := |steps| - 1;
      GuardedPrefix(s, steps, n);
      RunKeeps(s, steps[..n]);
      StepKeeps(Final(s, steps[..n]), steps[n]);
    }
  }

  /** Round robin is exact: the task at position k is not current before the (k+1)-th turn,
      stands at position k minus the turns taken so far, and is current right after the
      (k+1)-th turn, whatever else the steps do. */
  lemma {:induction false} WaitsExactly(s: Sched, steps: seq<Step>, k: nat)
    requires Inv(s) && Guarded(s, steps) && k < |s.queue|
    ensures var f, d := Final(s, steps), Turns(s, steps);
      && (d <= k ==> k - d < |f.queue| && f.queue[k - d] == s.queue[k] && f.current != s.queue[k])
      && (d == k + 1 && Turns(s, steps[..|steps| - 1]) == k ==> f.current == s.queue[k])
  {
    hide Guard, Apply, Switches, Core, Distinct;
    if steps == [] {
      assert s.queue[k] in s.queue;
    } else {
      var n := |steps| - 1;
      GuardedPrefix(s, steps, n);
      RunKeeps(s, steps[..n]);
      WaitsExactly(s, steps[..n], k);
      var p, f := Final(s, steps[..n]), Final(s, steps);
      assert steps[..n][..n] == steps[..n];
      StepMoves(p, steps[n]);
      RunKeeps(s, steps);
      var d := Turns(s, steps);
      if d <= k {
        assert f.queue[k - d] == s.queue[k];
        QueuedNotCurrent(f, k - d);
      }
    }
  }

  lemma QueuedNotCurrent(s: Sched, i: nat)
    requires Inv(s) && i < |s.queue|
    ensures s.queue[i] != s.current
  {
    assert s.queue[i] in s.queue;
  }

  // ---- Sleepers ----

  /** The step is no tick at or after time w. */
  predicate Before(step: Step, w: Word64) {
    step.DoTick? ==> step.now < w
  }

  ghost predicate Asleep(s: Sched, t: nat, w: Word64) {
    Shape(s) && t < MAX_TASKS && s.tasks[t].state == Sleeping && s.tasks[t].wakeTime == w && t !in s.queue
  }

  lemma DispatchSpares(s: Sched, t: nat)
    requires Core(s) && t < MAX_TASKS && t != s.current && s.tasks[t].state == Sleeping
    ensures Dispatch(s).tasks[t] == s.tasks[t]
  {
    assert s.queue != [] ==> s.queue[0] in s.queue;
  }

  /** One step leaves a sleeper asleep unless it is a tick that has come far enough. */
  lemma SleeperStays(s: Sched, step: Step, t: nat, w: Word64)
    requires Inv(s) && Possible(step) && Guard(s, step) && Asleep(s, t, w) && Before(step, w)
    ensures Asleep(Apply(s, step), t, w)
  {
    StepKeeps(s, step);
    hide Wake, Dispatch, Core, Distinct;
    CoreOf(s);
    match step
    case DoDispatch => DispatchSpares(s, t);
    case DoSchedule => DispatchSpares(s, t);
    case DoCreate(_) =>
    case DoTick(now) => TickSpares(s, now, t, w);
    case DoBlock(reason) =>
      var i := s.tasks[s.current].(state := Blocked, blockReason := reason);
      LeaveKeeps(s, i);
      DispatchSpares(s.(tasks := s.tasks[s.current := i]), t);
    case DoUnblock(_) =>
    case DoSleep(now, ms) =>
      var i := s.tasks[s.current].(wakeTime := Wrap64(now + ms), state := Sleeping);
      LeaveKeeps(s, i);
      DispatchSpares(s.(tasks := s.tasks[s.current := i]), t);
    case DoExit =>
      LeaveKeeps(s, s.tasks[s.current].(state := Zombie));
      DispatchSpares(SetState(s, s.current, Zombie), t);
    case DoEnable(_) =>
  }

  lemma TickSpares(s: Sched, now: Word64, t: nat, w: Word64)
    requires Inv(s) && Asleep(s, t, w) && now < w
    ensures t < |Tick(s, now).tasks| && Tick(s, now).tasks[t] == s.tasks[t]
  {
    TickKeeps(s, now);
    hide Wake, Dispatch, Core, Distinct;
    if s.enabled {
      var c := Charge(s);
      ChargeKeeps(s);
      WakeKeeps(c, now, 0);
      WakeExact(c, now, 0);
      CoreOf(Wake(c, now, 0));
      DispatchSpares(Wake(c, now, 0), t);
    }
  }

  /** No sleeper is queued before its wake time, over any run. */
  lemma {:induction false} SleepsUntilWakeTime(s: Sched, steps: seq<Step>, t: nat, w: Word64)
    requires Inv(s) && Guarded(s, steps) && Asleep(s, t, w)
    requires forall i :: 0 <= i < |steps| ==> Before(steps[i], w)
    ensures Asleep(Final(s, steps), t, w)
  {
    hide Guard, Apply;
    if steps != [] {
      var n := |steps| - 1;
      GuardedPrefix(s, steps, n);
      SleepsUntilWakeTime(s, steps[..n], t, w);
      RunKeeps(s, steps[..n]);
      SleeperStays(Final(s, steps[..n]), steps[n], t, w);
    }
  }

  /** The first tick at or after it readies the task: it is queued, or was next and runs. */
  lemma TickWakes(s: Sched, now: Word64, t: nat, w: Word64)
    requires Inv(s) && Asleep(s, t, w) && w <= now && s.enabled
    ensures var r := Tick(s, now); t in r.queue || t == r.current
  {
    hide Wake, Dispatch, Core, Distinct;
    var c := Charge(s);
    ChargeKeeps(s);
    WakeKeeps(c, now, 0);
    WakeExact(c, now, 0);
    DueExact(c.tasks, now, 0);
    var x := Wake(c, now, 0);
    CoreOf(x);
    DispatchKeeps(x);
    assert t in x.queue;
    assert t == x.queue[0] || t in x.queue[1..];
  }

  // ---- The bound ----

  lemma {:induction false} DistinctSize(q: seq<nat>, bound: set<nat>)
    requires Distinct(q) && forall i :: 0 <= i < |q| ==> q[i] in bound
    ensures |q| <= |bound|
  {
    if q != [] {
      var n := |q| - 1;
      DistinctSize(q[..n], bound - {q[n]});
    }
  }

  ghost function Below(n: nat): (r: set<nat>)
    ensures |r| == n
    ensures forall t: nat :: t in r <==> t < n
  {
    if n == 0 then {} else Below(n - 1) + {n - 1}
  }

  /** At most 63 tasks wait, so by WaitsExactly a ready task runs within 63 turns. */
  lemma QueueBounded(s: Sched)
    requires Inv(s)
    ensures |s.queue| <= MAX_TASKS - 1
  {
    var slots := Below(MAX_TASKS);
    forall i | 0 <= i < |s.queue|
      ensures s.queue[i] in slots - {s.current}
    {
      QueuedNotCurrent(s, i);
    }
    DistinctSize(s.queue, slots - {s.current});
  }
}
