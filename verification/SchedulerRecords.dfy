/** What each step leaves in the tasks' records, told from the records before it. */
module SchedulerRecords {
  import opened SchedulerModel
  import opened SchedulerLaws
  import opened SchedulerRuns

  /** A dispatch in the records: the front task runs, a running predecessor is ready again, and
      nothing else in any record changes. */
  lemma DispatchRecords(s: Sched)
    requires Core(s) && s.queue != []
    ensures var r := Dispatch(s);
      && |r.tasks| == 64 && r.current == s.queue[0] && r.idle == s.idle && r.enabled == s.enabled
        && r.nextTid == s.nextTid
      && forall t: nat :: t < 64 ==>
        r.tasks[t] ==
          if t == r.current then s.tasks[t].(state := Running)
          else if t == s.current && s.tasks[t].state == Running then s.tasks[t].(state := Ready)
          else s.tasks[t]
  {
    DispatchShape(s);
  }

  /** The current task leaves with record i, and the front task runs. */
  lemma LeaveRecords(s: Sched, i: Info)
    requires Inv(s) && s.queue != [] && i.state != Ready && i.state != Unused && i.state != Running
    ensures var l := s.(tasks := s.tasks[s.current := i]); var r := Dispatch(l);
      && |r.tasks| == 64 && r.tasks[s.current] == i && r.current == s.queue[0] != s.current && r.queue == s.queue[1..]
      && r.tasks[r.current] == s.tasks[r.current].(state := Running)
      && forall t: nat :: t < 64 && t != s.current && t != r.current ==> r.tasks[t] == s.tasks[t]
  {
    LeaveKeeps(s, i);
    var l := s.(tasks := s.tasks[s.current := i]);
    DispatchKeeps(l);
    DispatchRecords(l);
    hide Dispatch, Core;
  }

  /** task_sleep: asleep until now + ms, out of the queue, and the front task runs. */
  lemma SleepRecords(s: Sched, now: Word64, ms: nat)
    requires Inv(s) && s.queue != [] && s.enabled && now + ms < 0x1_0000_0000_0000_0000
    ensures var r := Apply(s, DoSleep(now, ms));
      && Inv(r) && |r.tasks| == 64 && s.current !in r.queue
      && r.tasks[s.current] == s.tasks[s.current].(state := Sleeping, wakeTime := now + ms)
      && r.current == s.queue[0] != s.current && r.queue == s.queue[1..] && r.enabled == s.enabled
      && r.tasks[r.current] == s.tasks[r.current].(state := Running)
      && forall t: nat :: t < 64 && t != s.current && t != r.current ==> r.tasks[t] == s.tasks[t]
  {
    StepKeeps(s, DoSleep(now, ms));
    LeaveRecords(s, s.tasks[s.current].(wakeTime := Wrap64(now + ms), state := Sleeping));
    hide Dispatch, Core;
  }

  /** From task_sleep at now on: over every run without a tick at or after now + ms the caller
      stays asleep and unqueued, and the first such tick of an enabled scheduler queues or runs it. */
  lemma SleepsExactly(s: Sched, now: Word64, ms: nat, steps: seq<Step>, at: Word64)
    requires Inv(s) && s.queue != [] && s.enabled && now + ms < 0x1_0000_0000_0000_0000
    requires Shape(Apply(s, DoSleep(now, ms))) && Guarded(Apply(s, DoSleep(now, ms)), steps)
    requires forall i :: 0 <= i < |steps| && steps[i].DoTick? ==> steps[i].now < now + ms
    ensures var f := Final(Apply(s, DoSleep(now, ms)), steps);
      && |f.tasks| == 64 && f.tasks[s.current].state == Sleeping && f.tasks[s.current].wakeTime == now + ms
      && s.current !in f.queue
      && (f.enabled && now + ms <= at ==>
            var r := Apply(f, DoTick(at)); s.current in r.queue || s.current == r.current)
  {
    SleepRecords(s, now, ms);
    hide Apply, Guard, Dispatch, Core, Wake, Tick;
    var r := Apply(s, DoSleep(now, ms));
    SleepsUntilWakeTime(r, steps, s.current, now + ms);
    RunKeeps(r, steps);
    var f := Final(r, steps);
    if f.enabled && now + ms <= at {
      TickWakes(f, at, s.current, now + ms);
      TickStep(f, at);
    }
  }

  lemma TickStep(s: Sched, now: Word64)
    requires Shape(s)
    ensures Apply(s, DoTick(now)) == Tick(s, now)
  {
  }

  /** task_block: blocked for the reason given, and the front task runs. */
  lemma BlockRecords(s: Sched, reason: nat)
    requires Inv(s) && s.queue != []
    ensures var r := Apply(s, DoBlock(reason));
      && |r.tasks| == 64 && r.tasks[s.current] == s.tasks[s.current].(state := Blocked, blockReason := reason)
      && r.current == s.queue[0] != s.current && r.queue == s.queue[1..]
      && r.tasks[r.current] == s.tasks[r.current].(state := Running)
      && forall t: nat :: t < 64 && t != s.current && t != r.current ==> r.tasks[t] == s.tasks[t]
  {
    LeaveRecords(s, s.tasks[s.current].(state := Blocked, blockReason := reason));
    hide Dispatch;
  }

  /** task_exit: a zombie, and the front task runs. */
  lemma ExitRecords(s: Sched)
    requires Inv(s) && s.queue != []
    ensures var r := Apply(s, DoExit);
      && |r.tasks| == 64 && r.tasks[s.current] == s.tasks[s.current].(state := Zombie)
      && r.current == s.queue[0] != s.current && r.queue == s.queue[1..]
      && r.tasks[r.current] == s.tasks[r.current].(state := Running)
      && forall t: nat :: t < 64 && t != s.current && t != r.current ==> r.tasks[t] == s.tasks[t]
  {
    LeaveRecords(s, s.tasks[s.current].(state := Zombie));
    hide Dispatch;
  }

  /** task_unblock: a blocked task is ready at the end of the queue; any other call does nothing. */
  lemma UnblockRecords(s: Sched, t: int)
    requires Inv(s) && -1 <= t < 64
    ensures var r := Apply(s, DoUnblock(t));
      if t == -1 || s.tasks[t].state != Blocked then r == s
      else r == s.(tasks := s.tasks[t := s.tasks[t].(state := Ready, blockReason := 0)], queue := s.queue + [t])
  {
  }

  /** task_create: the lowest unused slot k gets the next number and waits last in the queue;
      without such a slot or a stack nothing happens. */
  lemma CreateRecords(s: Sched, k: nat)
    requires Inv(s) && k <= 64 && (forall i :: 0 <= i < k ==> s.tasks[i].state != Unused)
    requires k < 64 ==> s.tasks[k].state == Unused
    ensures Apply(s, DoCreate(false)) == s
    ensures var r := Apply(s, DoCreate(true));
      if k == 64 then r == s
      else r == s.(tasks := s.tasks[k := Info(s.nextTid, Ready, s.tasks[k].blockReason, 0, 0)],
                   queue := s.queue + [k], nextTid := (s.nextTid + 1) % 0x1_0000_0000)
  {
    assert FreeSlot(s.tasks, 0) == k;
  }

  /** A tick of an enabled scheduler: the current task is charged, every sleeper whose time has
      come is ready, in slot order behind the others, and then, unless the kernel task runs or
      nobody waits, the front task runs and its predecessor waits last. */
  lemma TickRecords(s: Sched, now: Word64)
    requires Inv(s)
    ensures !s.enabled ==> Apply(s, DoTick(now)) == s
    ensures s.enabled ==>
      var due, r := DueFrom(s.tasks, now, 0), Apply(s, DoTick(now));
      var queue, switch := s.queue + due, s.queue + due != [] && s.tasks[s.current].tid != 0;
      && |r.tasks| == 64
      && (if switch then r.current == queue[0] && r.queue == queue[1..] + [s.current]
          else r.current == s.current && r.queue == queue)
      && forall t: nat :: t < 64 ==>
        var i := s.tasks[t];
        r.tasks[t] ==
          if t == s.current then
            i.(cpuTime := (i.cpuTime + 1) % 0x1_0000_0000_0000_0000, state := if switch then Ready else Running)
          else if switch && t == r.current then i.(state := Running)
          else if i.state == Sleeping && i.wakeTime <= now then i.(state := Ready)
          else i
  {
    hide Wake, Charge, Core, DueFrom, Distinct, Dispatch, Tick, Inv, Scanned;
    CurrentRuns(s);
    TickStep(s, now);
    TickIs(s, now);
    if s.enabled {
      ScanRecords(s, now);
      SwitchRecords(s, now, Wake(Charge(s), now, 0));
    }
  }

  lemma TickIs(s: Sched, now: Word64)
    requires Inv(s)
    ensures !s.enabled ==> Tick(s, now) == s
    ensures s.enabled ==> var w := Wake(Charge(s), now, 0);
      Shape(w) && Tick(s, now) == if w.queue != [] && w.tasks[w.current].tid != 0 then Dispatch(w) else w
  {
    hide Wake, Dispatch, Core, Distinct;
    ChargeKeeps(s);
    WakeKeeps(Charge(s), now, 0);
    WakeExact(Charge(s), now, 0);
  }

  /** The tick before it dispatches. */
  ghost predicate Scanned(s: Sched, now: Word64, w: Sched) {
    && Inv(w) && w.current == s.current < 64 && |w.tasks| == 64 == |s.tasks|
      && w.queue == s.queue + DueFrom(s.tasks, now, 0)
    && forall t: nat :: t < 64 ==>
      w.tasks[t] ==
        if t == s.current then s.tasks[t].(cpuTime := (s.tasks[t].cpuTime + 1) % 0x1_0000_0000_0000_0000)
        else if s.tasks[t].state == Sleeping && s.tasks[t].wakeTime <= now then s.tasks[t].(state := Ready)
        else s.tasks[t]
  }

  lemma ScanRecords(s: Sched, now: Word64)
    requires Inv(s) && s.enabled
    ensures Scanned(s, now, Wake(Charge(s), now, 0))
  {
    var c := Charge(s);
    ChargeKeeps(s);
    WakeKeeps(c, now, 0);
    WakeExact(c, now, 0);
    DueCharged(s, now, 0);
    hide Wake, Core, DueFrom, Distinct, Charge, Woken, Inv;
    ChargedSlot(s);
    forall t: nat | t < 64
      ensures Wake(c, now, 0).tasks[t] == Woken(c.tasks, now, 0, t)
    {
    }
    WokenCharged(s, now);
  }

  lemma ChargedSlot(s: Sched)
    requires Inv(s)
    ensures |s.tasks| == 64 == |Charge(s).tasks| && s.current < 64 && Charge(s).current == s.current
    ensures Charge(s).queue == s.queue
  {
  }

  lemma WokenCharged(s: Sched, now: Word64)
    requires Inv(s) && |Charge(s).tasks| == 64
    ensures forall t: nat :: t < 64 ==>
      Woken(Charge(s).tasks, now, 0, t) ==
        if t == s.current then s.tasks[t].(cpuTime := (s.tasks[t].cpuTime + 1) % 0x1_0000_0000_0000_0000)
        else if s.tasks[t].state == Sleeping && s.tasks[t].wakeTime <= now then s.tasks[t].(state := Ready)
        else s.tasks[t]
  {
  }

  lemma SwitchRecords(s: Sched, now: Word64, w: Sched)
    requires Scanned(s, now, w)
    ensures Shape(w) && w.queue == s.queue + DueFrom(s.tasks, now, 0)
    ensures w.tasks[w.current].tid == s.tasks[s.current].tid
    ensures var queue, switch := s.queue + DueFrom(s.tasks, now, 0), w.queue != [] && s.tasks[s.current].tid != 0;
      var r := if switch then Dispatch(w) else w;
      && |r.tasks| == 64
      && (if switch then r.current == queue[0] && r.queue == queue[1..] + [s.current]
          else r.current == s.current && r.queue == queue)
      && forall t: nat :: t < 64 ==>
        var i := s.tasks[t];
        r.tasks[t] ==
          if t == s.current then
            i.(cpuTime := (i.cpuTime + 1) % 0x1_0000_0000_0000_0000, state := if switch then Ready else Running)
          else if switch && t == r.current then i.(state := Running)
          else if i.state == Sleeping && i.wakeTime <= now then i.(state := Ready)
          else i
  {
    CurrentRuns(w);
    assert w.tasks[s.current].state == s.tasks[s.current].state;
    if w.queue != [] && s.tasks[s.current].tid != 0 {
      CoreOf(w);
      DispatchKeeps(w);
      DispatchRecords(w);
    }
    hide Dispatch, Inv, Core, DueFrom;
  }

  lemma CurrentRuns(s: Sched)
    requires Inv(s)
    ensures Shape(s) && s.tasks[s.current].state == Running && (s.queue != [] ==> s.queue[0] in s.queue)
  {
  }

  lemma {:induction false} DueCharged(s: Sched, now: Word64, i: nat)
    requires Inv(s) && i <= 64
    ensures DueFrom(Charge(s).tasks, now, i) == DueFrom(s.tasks, now, i)
    decreases 64 - i
  {
    if i < 64 { DueCharged(s, now, i + 1); }
  }
}
