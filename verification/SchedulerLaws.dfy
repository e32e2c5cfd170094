/** What every run of the scheduler keeps, and how long a ready task waits. */
module SchedulerLaws {
  import opened SchedulerModel

  /** The invariant while the current task is giving up the processor. */
  ghost predicate Core(s: Sched) {
    && Shape(s) && Distinct(s.queue)
    && s.tasks[s.current].state != Ready && s.tasks[s.current].state != Unused
    && (forall t :: 0 <= t < MAX_TASKS && s.tasks[t].state == Running ==> t == s.current)
    && (s.idle != NONE ==> s.tasks[s.idle].state == Ready)
    && (forall t: nat :: t < MAX_TASKS ==> (t in s.queue <==> s.tasks[t].state == Ready && t != s.idle))
  }

  lemma CoreOf(s: Sched)
    requires Inv(s)
    ensures Core(s)
  {
  }

  lemma EnqueueKeeps(s: Sched, t: nat)
    requires Core(s) && t < MAX_TASKS && t != s.current && s.tasks[t].state != Ready
    ensures Core(Enqueue(s, t)) && (Inv(s) ==> Inv(Enqueue(s, t)))
    ensures t !in s.queue
  {
    var r := Enqueue(s, t);
    forall u: nat | u < MAX_TASKS
      ensures u in r.queue <==> r.tasks[u].state == Ready && u != r.idle
    {
    }
  }

  /** The front task becomes current; a running predecessor goes to the back. */
  lemma DispatchKeeps(s: Sched)
    requires Core(s)
    ensures s.queue == [] ==> Dispatch(s) == s
    ensures s.current !in s.queue
    ensures s.queue != [] ==>
      && Inv(Dispatch(s)) && Dispatch(s).current == s.queue[0] && s.queue[0] != s.current
      && Dispatch(s).queue == s.queue[1..] + (if s.tasks[s.current].state == Running then [s.current] else [])
  {
    if s.queue != [] {
      DispatchShape(s);
      DispatchTable(s);
    }
  }

  lemma DispatchShape(s: Sched)
    requires Core(s) && s.queue != []
    ensures s.queue[0] != s.current && s.current !in s.queue && Shape(Dispatch(s)) && Distinct(Dispatch(s).queue)
    ensures Dispatch(s).queue == s.queue[1..] + (if s.tasks[s.current].state == Running then [s.current] else [])
  {
    assert s.queue[0] in s.queue;
  }

  lemma DispatchTable(s: Sched)
    requires Core(s) && s.queue != []
    ensures var r := Dispatch(s);
      && |r.tasks| == MAX_TASKS && r.current < MAX_TASKS && r.tasks[r.current].state == Running
      && (forall t :: 0 <= t < MAX_TASKS && r.tasks[t].state == Running ==> t == r.current)
      && (r.idle != NONE ==> 0 <= r.idle < MAX_TASKS && r.tasks[r.idle].state == Ready)
      && (forall t: nat :: t < MAX_TASKS ==> (t in r.queue <==> r.tasks[t].state == Ready && t != r.idle))
  {
    var n, r := s.queue[0], Dispatch(s);
    DispatchShape(s);
    assert n in s.queue;
    assert n !in s.queue[1..];
    forall u: nat | u < MAX_TASKS
      ensures u in r.queue <==> r.tasks[u].state == Ready && u != r.idle
    {
      assert u in s.queue <==> u == n || u in s.queue[1..];
    }
  }

  lemma {:induction false} WakeKeeps(s: Sched, now: Word64, i: nat)
    requires Inv(s) && i <= MAX_TASKS
    ensures Inv(Wake(s, now, i)) && Wake(s, now, i).current == s.current
      && Wake(s, now, i).tasks[s.current] == s.tasks[s.current]
    ensures s.queue <= Wake(s, now, i).queue
    decreases MAX_TASKS - i
  {
    if i < MAX_TASKS {
      if s.tasks[i].state == Sleeping && s.tasks[i].wakeTime <= now {
        EnqueueKeeps(s, i);
        WakeKeeps(Enqueue(s, i), now, i + 1);
      } else {
        WakeKeeps(s, now, i + 1);
      }
    }
  }

  // ---- The tick's scan ----

  ghost predicate Due(tasks: seq<Info>, t: nat, now: Word64) {
    t < |tasks| && tasks[t].state == Sleeping && tasks[t].wakeTime <= now
  }

  /** The tasks due, from slot i on, lowest slot first. */
  ghost function DueFrom(tasks: seq<Info>, now: Word64, i: nat): seq<nat>
    requires i <= |tasks|
    decreases |tasks| - i
  {
    if i == |tasks| then [] else (if Due(tasks, i, now) then [i] else []) + DueFrom(tasks, now, i + 1)
  }

  lemma {:induction false} DueExact(tasks: seq<Info>, now: Word64, i: nat)
    requires i <= |tasks|
    ensures forall t: nat :: t in DueFrom(tasks, now, i) <==> i <= t && Due(tasks, t, now)
    ensures forall j, k :: 0 <= j < k < |DueFrom(tasks, now, i)| ==>
      DueFrom(tasks, now, i)[j] < DueFrom(tasks, now, i)[k]
    decreases |tasks| - i
  {
    if i < |tasks| {
      DueExact(tasks, now, i + 1);
      var rest := DueFrom(tasks, now, i + 1);
      assert forall k :: 0 <= k < |rest| ==> rest[k] in rest;
    }
  }

  lemma {:induction false} DueSame(tasks: seq<Info>, tasks': seq<Info>, now: Word64, i: nat)
    requires i <= |tasks| == |tasks'| && forall t :: i <= t < |tasks| ==> tasks[t] == tasks'[t]
    ensures DueFrom(tasks, now, i) == DueFrom(tasks', now, i)
    decreases |tasks| - i
  {
    if i < |tasks| { DueSame(tasks, tasks', now, i + 1); }
  }

  /** The scan appends exactly the tasks due, in slot order, and readies them alone. */
  lemma {:induction false} WakeExact(s: Sched, now: Word64, i: nat)
    requires i <= |s.tasks|
    ensures var w := Wake(s, now, i);
      && w == s.(tasks := w.tasks, queue := s.queue + DueFrom(s.tasks, now, i))
      && |w.tasks| == |s.tasks|
      && (forall t: nat :: t < |s.tasks| ==> w.tasks[t] == Woken(s.tasks, now, i, t))
    decreases |s.tasks| - i
  {
    hide Woken;
    if i < |s.tasks| {
      var r := if Due(s.tasks, i, now) then Enqueue(s, i) else s;
      WakeExact(r, now, i + 1);
      DueSame(s.tasks, r.tasks, now, i + 1);
      WakeOne(s, now, i);
      assert DueFrom(s.tasks, now, i) == (if Due(s.tasks, i, now) then [i] else []) + DueFrom(s.tasks, now, i + 1);
    } else {
      WokenNone(s.tasks, now, i);
    }
  }

  /** A slot's record after the scan from slot i on. */
  ghost function Woken(tasks: seq<Info>, now: Word64, i: nat, t: nat): Info
    requires t < |tasks|
  {
    if i <= t && Due(tasks, t, now) then tasks[t].(state := Ready) else tasks[t]
  }

  lemma WokenNone(tasks: seq<Info>, now: Word64, i: nat)
    requires |tasks| <= i
    ensures forall t: nat :: t < |tasks| ==> Woken(tasks, now, i, t) == tasks[t]
  {
  }

  lemma WakeOne(s: Sched, now: Word64, i: nat)
    requires i < |s.tasks|
    ensures var r := if Due(s.tasks, i, now) then Enqueue(s, i) else s;
      forall t: nat :: t < |s.tasks| ==> Woken(r.tasks, now, i + 1, t) == Woken(s.tasks, now, i, t)
  {
  }

  // ---- The steps keep the invariant ----

  lemma CreateKeeps(s: Sched, stack: bool)
    requires Inv(s)
    ensures Inv(Create(s, stack)) && Create(s, stack).current == s.current && s.queue <= Create(s, stack).queue
  {
    var r, k := Create(s, stack), FreeSlot(s.tasks, 0);
    if k < MAX_TASKS && stack {
      assert k !in s.queue;
      forall u: nat | u < MAX_TASKS
        ensures u in r.queue <==> r.tasks[u].state == Ready && u != r.idle
      {
      }
    }
  }

  lemma TickKeeps(s: Sched, now: Word64)
    requires Inv(s)
    ensures Inv(Tick(s, now))
  {
    if s.enabled {
      WakeKeeps(Charge(s), now, 0);
      DispatchKeeps(Wake(Charge(s), now, 0));
    }
  }

  lemma UnblockKeeps(s: Sched, t: int)
    requires Inv(s) && NONE <= t < MAX_TASKS
    ensures Inv(Unblock(s, t)) && Unblock(s, t).current == s.current && s.queue <= Unblock(s, t).queue
  {
    if t != NONE && s.tasks[t].state == Blocked {
      var r := s.(tasks := s.tasks[t := s.tasks[t].(blockReason := 0)]);
      assert Inv(r);
      EnqueueKeeps(r, t);
    }
  }

  /** The current task turned into i gives way to the next one, if there is one. */
  lemma LeaveKeeps(s: Sched, i: Info)
    requires Inv(s) && i.state != Ready && i.state != Unused && i.state != Running
    ensures var l := s.(tasks := s.tasks[s.current := i]);
      Core(l) && (Inv(Dispatch(l)) <==> s.queue != [])
  {
    hide Dispatch;
    var l := s.(tasks := s.tasks[s.current := i]);
    forall u: nat | u < MAX_TASKS
      ensures u in l.queue <==> l.tasks[u].state == Ready && u != l.idle
    {
    }
    DispatchKeeps(l);
  }

  /** A step keeps the invariant exactly when its guard holds. */
  lemma StepKeeps(s: Sched, step: Step)
    requires Inv(s) && Possible(step)
    ensures Inv(Apply(s, step)) <==> Guard(s, step)
  {
    hide Wake, Dispatch, Tick, Unblock, Create;
    match step
    case DoDispatch => DispatchKeeps(s);
    case DoSchedule => DispatchKeeps(s);
    case DoCreate(stack) => CreateKeeps(s, stack);
    case DoTick(now) => TickKeeps(s, now);
    case DoBlock(reason) => LeaveKeeps(s, s.tasks[s.current].(state := Blocked, blockReason := reason));
    case DoUnblock(t) => UnblockKeeps(s, t);
    case DoSleep(now, ms) => LeaveKeeps(s, s.tasks[s.current].(wakeTime := Wrap64(now + ms), state := Sleeping));
    case DoExit => LeaveKeeps(s, s.tasks[s.current].(state := Zombie));
    case DoEnable(on) =>
  }
}
