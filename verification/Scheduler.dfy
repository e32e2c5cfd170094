/** The scheduler's task table and its intrusive ready queue, updated in place. */
module Scheduler {
  import opened SchedulerModel
  import opened SchedulerLaws

  /** A slot of the table; next links the ready queue. */
  datatype Task = Task(info: Info, next: int)

  function Infos(ts: seq<Task>): (r: seq<Info>)
    ensures |r| == |ts|
  {
    seq(|ts|, i requires 0 <= i < |ts| => ts[i].info)
  }

  lemma InfosUpdate(ts: seq<Task>, t: nat, x: Task)
    requires t < |ts|
    ensures Infos(ts[t := x]) == Infos(ts)[t := x.info]
  {
  }

  function At(q: seq<nat>, i: int): int {
    if 0 <= i < |q| then q[i] else NONE
  }

  /** The next links from head to tail run through the queue in order. */
  ghost predicate Linked(ts: seq<Task>, head: int, tail: int, q: seq<nat>) {
    && Distinct(q) && head == At(q, 0) && tail == At(q, |q| - 1)
    && forall i :: 0 <= i < |q| ==> q[i] < |ts| && ts[q[i]].next == At(q, i + 1)
  }

  /** Changing a slot but not its link. */
  lemma LinkedInfo(ts: seq<Task>, head: int, tail: int, q: seq<nat>, t: nat, x: Task)
    requires Linked(ts, head, tail, q) && t < |ts| && (t in q ==> x.next == ts[t].next)
    ensures Linked(ts[t := x], head, tail, q)
  {
  }

  lemma LinkedAdd(ts: seq<Task>, head: int, tail: int, q: seq<nat>, t: nat, x: Task)
    requires Linked(ts, head, tail, q) && t < |ts| && t !in q && x.next == NONE
    ensures q == [] ==> Linked(ts[t := x], t, t, q + [t]) && tail == NONE
    ensures q != [] ==>
      && 0 <= tail < |ts| && tail != t
      && Linked(ts[t := x][tail := ts[tail].(next := t)], head, t, q + [t])
  {
    if q != [] {
      assert q[|q| - 1] in q;
      assert forall i :: 0 <= i < |q| - 1 ==> q[i] != q[|q| - 1];
    }
  }

  lemma LinkedPop(ts: seq<Task>, head: int, tail: int, q: seq<nat>)
    requires Linked(ts, head, tail, q) && q != []
    ensures 0 <= head < |ts| && ts[head].next == At(q, 1) && (|q| == 1 <==> ts[head].next == NONE)
    ensures Linked(ts[head := ts[head].(next := NONE)], At(q, 1), if |q| == 1 then NONE else tail, q[1..])
  {
  }

  lemma HeadTells(ts: seq<Task>, head: int, tail: int, q: seq<nat>)
    requires Linked(ts, head, tail, q)
    ensures head == NONE <==> q == []
  {
  }

  lemma SlotNotQueued(s: Sched)
    requires Inv(s)
    ensures FreeSlot(s.tasks, 0) !in s.queue && FreeSlot(s.tasks, 0) <= MAX_TASKS
  {
  }

  lemma CoreShape(s: Sched)
    requires Core(s)
    ensures Shape(s)
  {
  }

  lemma InfoAt(ts: seq<Task>, k: nat)
    requires k < |ts|
    ensures Infos(ts)[k] == ts[k].info
  {
  }

  lemma UpdateTwice<T>(s: seq<T>, k: nat, a: T, b: T)
    requires k < |s|
    ensures s[k := a][k := b] == s[k := b]
  {
  }

  const BLANK := Info(0, Unused, 0, 0, 0)

  /** The state scheduler_init leaves: the kernel thread running, idle aside in slot 1. */
  function Booted(stack: bool): Sched {
    var ts := seq(MAX_TASKS, i => BLANK)[0 := BLANK.(state := Running)];
    if stack then Sched(ts[1 := Info(1, Ready, 0, 0, 0)], [], 0, 1, false, 2) else Sched(ts, [], 0, NONE, false, 1)
  }

  lemma BootedInv(stack: bool)
    ensures Inv(Booted(stack))
  {
  }

  /** Blocking with nothing else ready: after scheduler_init alone the kernel thread stays the
      current task, and is not running. */
  lemma BlockAlone()
    ensures Inv(Booted(true)) && !Guard(Booted(true), DoBlock(0)) && !Inv(Apply(Booted(true), DoBlock(0)))
  {
    BootedInv(true);
    StepKeeps(Booted(true), DoBlock(0));
  }

  /** Sleeping while the scheduler is disabled, although another task is ready. */
  lemma SleepDisabled()
    ensures var s := Create(Booted(true), true);
      Inv(s) && s.queue == [2] && !s.enabled && !Guard(s, DoSleep(0, 1)) && !Inv(Apply(s, DoSleep(0, 1)))
  {
    BootedInv(true);
    var b := Booted(true);
    CreateKeeps(b, true);
    assert FreeSlot(b.tasks, 0) == FreeSlot(b.tasks, 1) == FreeSlot(b.tasks, 2) == 2;
    StepKeeps(Create(b, true), DoSleep(0, 1));
  }

  lemma WakeStep(s: Sched, now: Word64, i: nat)
    requires i <= |s.tasks|
    ensures Wake(s, now, i) ==
      if i == |s.tasks| then s
      else if s.tasks[i].state == Sleeping && s.tasks[i].wakeTime <= now then Wake(Enqueue(s, i), now, i + 1)
      else Wake(s, now, i + 1)
  {
  }

  class Scheduler {
    const tasks: array<Task>
    var head: int
    var tail: int
    var current: nat
    var idle: int
    var enabled: bool
    var nextTid: nat
    ghost var queue: seq<nat>

    ghost predicate Valid()
      reads this, tasks
    {
      tasks.Length == MAX_TASKS && Linked(tasks[..], head, tail, queue)
    }

    ghost function Abs(): Sched
      reads this, tasks
    {
      Sched(Infos(tasks[..]), queue, current, idle, enabled, nextTid)
    }

    /** Replace slot t's record. */
    method SetInfo(t: nat, i: Info)
      requires Valid() && t < MAX_TASKS
      modifies tasks
      ensures Valid() && Abs() == old(Abs()).(tasks := old(Abs()).tasks[t := i])
    {
      InfosUpdate(tasks[..], t, Task(i, tasks[t].next));
      LinkedInfo(tasks[..], head, tail, queue, t, Task(i, tasks[t].next));
      ghost var ts := tasks[..];
      tasks[t] := Task(i, tasks[t].next);
      assert tasks[..] == ts[t := Task(i, ts[t].next)];
    }

    method ReadyQueueAdd(t: nat)
      requires Valid() && t < MAX_TASKS && t !in queue
      modifies this, tasks
      ensures Valid() && Abs() == Enqueue(old(Abs()), t)
    {
      ghost var ts := tasks[..];
      var x := Task(tasks[t].info.(state := Ready), NONE);
      InfosUpdate(ts, t, x);
      LinkedAdd(ts, head, tail, queue, t, x);
      tasks[t] := x;
      assert tasks[..] == ts[t := x];
      if tail != NONE {
        InfosUpdate(tasks[..], tail, tasks[tail].(next := t));
        tasks[tail] := tasks[tail].(next := t);
        assert tasks[..] == ts[t := x][tail := ts[tail].(next := t)];
        assert Infos(tasks[..]) == Infos(ts)[t := x.info];
        tail := t;
      } else {
        head, tail := t, t;
      }
      queue := queue + [t];
    }

    method ReadyQueuePop() returns (t: int)
      requires Valid()
      modifies this, tasks
      ensures Valid()
      ensures old(queue) == [] ==> t == NONE && Abs() == old(Abs())
      ensures old(queue) != [] ==> t == old(queue)[0] && Abs() == old(Abs()).(queue := old(queue)[1..])
    {
      if head == NONE { return NONE; }
      ghost var ts := tasks[..];
      LinkedPop(ts, head, tail, queue);
      InfosUpdate(ts, head, ts[head].(next := NONE));
      t := head;
      head := tasks[t].next;
      if head == NONE { tail := NONE; }
      tasks[t] := tasks[t].(next := NONE);
      assert tasks[..] == ts[t := ts[t].(next := NONE)];
      queue := queue[1..];
      assert Infos(tasks[..]) == Infos(ts);
    }

    /** scheduler_init; stack says whether idle's stack could be allocated. */
    constructor (stack: bool)
      ensures Valid() && fresh(tasks) && Abs() == Booted(stack) && Inv(Abs())
      ensures var s := Abs();
        && s.current == 0 && !s.enabled && s.queue == [] && |s.tasks| == 64 && s.tasks[0] == Info(0, Running, 0, 0, 0)
        && (if stack then s.idle == 1 && s.nextTid == 2 && s.tasks[1] == Info(1, Ready, 0, 0, 0)
            else s.idle == -1 && s.nextTid == 1 && s.tasks[1].state == Unused)
        && forall t :: 2 <= t < 64 ==> s.tasks[t].state == Unused
    {
      tasks := new Task[MAX_TASKS](i => Task(if i == 0 then BLANK.(state := Running) else BLANK, NONE));
      head, tail, current, idle, enabled, nextTid := NONE, NONE, 0, NONE, false, 1;
      queue := [];
      new;
      BootedInv(stack);
      BootedInv(false);
      assert Abs() == Booted(false);
      idle := TaskCreate(stack);
      if idle != NONE {
        if head == idle {
          var popped := ReadyQueuePop();
        }
        SetInfo(idle, tasks[idle].info.(state := Ready));
      }
    }

    method AllocTaskSlot() returns (k: nat)
      requires Valid()
      ensures k == FreeSlot(Abs().tasks, 0)
    {
      k := 0;
      while k < MAX_TASKS
        invariant k <= MAX_TASKS && FreeSlot(Abs().tasks, k) == FreeSlot(Abs().tasks, 0)
      {
        if tasks[k].info.state == Unused { return; }
        k := k + 1;
      }
    }

    method TaskCreate(stack: bool) returns (t: int)
      requires Valid() && Inv(Abs())
      modifies this, tasks
      ensures Valid() && Abs() == Create(old(Abs()), stack)
      ensures t == var k := FreeSlot(old(Abs()).tasks, 0); if k < MAX_TASKS && stack then k else NONE
    {
      hide Inv, FreeSlot, Linked, Infos;
      SlotNotQueued(Abs());
      var k := AllocTaskSlot();
      if k == MAX_TASKS || !stack { return NONE; }
      var i := Info(nextTid, Ready, tasks[k].info.blockReason, 0, 0);
      UpdateTwice(Abs().tasks, k, i, i);
      InfoAt(tasks[..], k);
      SetInfo(k, i);
      nextTid := (nextTid + 1) % TID_LIMIT;
      ReadyQueueAdd(k);
      return k;
    }

    method Force()
      requires Valid() && Core(Abs())
      modifies this, tasks
      ensures Valid() && Abs() == Dispatch(old(Abs()))
    {
      hide Core, Linked, Infos, Distinct, Inv;
      CoreShape(Abs());
      DispatchKeeps(Abs());
      var next := ReadyQueuePop();
      if next == NONE || next == current { return; }
      var prev := current;
      InfoAt(tasks[..], prev);
      if tasks[prev].info.state == Running && prev != idle {
        ReadyQueueAdd(prev);
      }
      current := next;
      InfoAt(tasks[..], next);
      SetInfo(next, tasks[next].info.(state := Running));
    }

    method Yield()
      requires Valid() && Core(Abs())
      modifies this, tasks
      ensures Valid() && Abs() == Schedule(old(Abs()))
    {
      if enabled { Force(); }
    }

    method OnTick(now: Word64)
      requires Valid() && Inv(Abs())
      modifies this, tasks
      ensures Valid() && Abs() == Tick(old(Abs()), now)
    {
      hide Wake, Core, Dispatch, Linked;
      if !enabled { return; }
      var c := tasks[current].info;
      SetInfo(current, c.(cpuTime := Wrap64(c.cpuTime + 1)));
      ghost var s := Abs();
      for i := 0 to MAX_TASKS
        invariant Valid() && Inv(Abs()) && Wake(Abs(), now, i) == Wake(s, now, 0) && enabled
      {
        WakeStep(Abs(), now, i);
        if tasks[i].info.state == Sleeping && now >= tasks[i].info.wakeTime {
          EnqueueKeeps(Abs(), i);
          ReadyQueueAdd(i);
        }
      }
      WakeStep(Abs(), now, MAX_TASKS);
      CoreOf(Abs());
      HeadTells(tasks[..], head, tail, queue);
      if head != NONE && tasks[current].info.tid != 0 { Yield(); }
    }

    method TaskBlock(reason: nat)
      requires Valid() && Inv(Abs())
      modifies this, tasks
      ensures Valid() && Abs() == Block(old(Abs()), reason)
    {
      hide Dispatch;
      LeaveKeeps(Abs(), Abs().tasks[current].(state := Blocked, blockReason := reason));
      SetInfo(current, tasks[current].info.(state := Blocked, blockReason := reason));
      Force();
    }

    method TaskUnblock(t: int)
      requires Valid() && Inv(Abs()) && NONE <= t < MAX_TASKS
      modifies this, tasks
      ensures Valid() && Abs() == Unblock(old(Abs()), t)
    {
      if t == NONE || tasks[t].info.state != Blocked { return; }
      SetInfo(t, tasks[t].info.(blockReason := 0));
      ReadyQueueAdd(t);
    }

    method TaskSleep(now: Word64, ms: nat)
      requires Valid() && Inv(Abs())
      modifies this, tasks
      ensures Valid() && Abs() == Sleep(old(Abs()), now, ms)
    {
      hide Dispatch;
      LeaveKeeps(Abs(), Abs().tasks[current].(wakeTime := Wrap64(now + ms), state := Sleeping));
      SetInfo(current, tasks[current].info.(wakeTime := Wrap64(now + ms), state := Sleeping));
      Yield();
    }

    method TaskExit()
      requires Valid() && Inv(Abs())
      modifies this, tasks
      ensures Valid() && Abs() == Exit(old(Abs()))
    {
      hide Dispatch;
      LeaveKeeps(Abs(), Abs().tasks[current].(state := Zombie));
      SetInfo(current, tasks[current].info.(state := Zombie));
      Force();
    }
  }
}
