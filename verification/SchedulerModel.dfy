/** The scheduler as a step system over its task table and FIFO ready queue. */
module SchedulerModel {
  const MAX_TASKS := 64
  const U64_LIMIT := 0x1_0000_0000_0000_0000
  const TID_LIMIT := 0x1_0000_0000
  const NONE := -1

  type Word64 = x: int | 0 <= x < U64_LIMIT

  datatype State = Unused | Running | Ready | Blocked | Sleeping | Zombie

  datatype Info = Info(tid: nat, state: State, blockReason: nat, wakeTime: Word64, cpuTime: Word64)

  /** current and idle are slots of the table; idle is NONE when it could not be created. */
  datatype Sched = Sched(tasks: seq<Info>, queue: seq<nat>, current: nat, idle: int, enabled: bool, nextTid: nat)

  function Wrap64(x: int): Word64 {
    x % U64_LIMIT
  }

  ghost predicate Distinct(q: seq<nat>) {
    forall i, j :: 0 <= i < j < |q| ==> q[i] != q[j]
  }

  /** Slots are in range: what every step may rely on and keeps, whatever its guard. */
  ghost predicate Shape(s: Sched) {
    && |s.tasks| == MAX_TASKS && s.current < MAX_TASKS && NONE <= s.idle < MAX_TASKS
    && forall i :: 0 <= i < |s.queue| ==> s.queue[i] < MAX_TASKS
  }

  /** The ready queue holds exactly the READY tasks other than idle, once each; the current
      task is the only RUNNING one; idle waits aside. */
  ghost predicate Inv(s: Sched) {
    && Shape(s) && Distinct(s.queue)
    && s.tasks[s.current].state == Running
    && (forall t :: 0 <= t < MAX_TASKS && s.tasks[t].state == Running ==> t == s.current)
    && (s.idle != NONE ==> s.tasks[s.idle].state == Ready)
    && (forall t: nat :: t < MAX_TASKS ==> (t in s.queue <==> s.tasks[t].state == Ready && t != s.idle))
  }

  // ---- The steps ----

  function SetState(s: Sched, t: nat, st: State): Sched
    requires t < |s.tasks|
  {
    s.(tasks := s.tasks[t := s.tasks[t].(state := st)])
  }

  function Enqueue(s: Sched, t: nat): Sched
    requires t < |s.tasks|
  {
    SetState(s, t, Ready).(queue := s.queue + [t])
  }

  /** schedule_force. */
  function Dispatch(s: Sched): Sched
    requires Shape(s)
  {
    if s.queue == [] then s
    else
      var n, s1 := s.queue[0], s.(queue := s.queue[1..]);
      if n == s.current then s1
      else
        var s2 := if s.tasks[s.current].state == Running && s.current != s.idle then Enqueue(s1, s.current) else s1;
        SetState(s2, n, Running).(current := n)
  }

  function Schedule(s: Sched): Sched
    requires Shape(s)
  {
    if s.enabled then Dispatch(s) else s
  }

  /** The first unused slot from i on, or MAX_TASKS. */
  function FreeSlot(tasks: seq<Info>, i: nat): (k: nat)
    requires i <= |tasks|
    ensures i <= k <= |tasks|
    ensures k < |tasks| ==> tasks[k].state == Unused
    ensures forall j :: i <= j < k ==> tasks[j].state != Unused
    decreases |tasks| - i
  {
    if i == |tasks| || tasks[i].state == Unused then i else FreeSlot(tasks, i + 1)
  }

  /** task_create; stack says whether its stack could be allocated. */
  function Create(s: Sched, stack: bool): Sched
    requires Shape(s)
  {
    var k := FreeSlot(s.tasks, 0);
    if k == MAX_TASKS || !stack then s
    else
      s.(tasks := s.tasks[k := Info(s.nextTid, Ready, s.tasks[k].blockReason, 0, 0)], queue := s.queue + [k],
      nextTid := (s.nextTid + 1) % TID_LIMIT)
  }

  /** The tick's scan from slot i on: sleepers whose time has come join the queue. */
  function Wake(s: Sched, now: Word64, i: nat): Sched
    requires i <= |s.tasks|
    decreases |s.tasks| - i
  {
    if i == |s.tasks| then s
    else if s.tasks[i].state == Sleeping && s.tasks[i].wakeTime <= now then Wake(Enqueue(s, i), now, i + 1)
    else Wake(s, now, i + 1)
  }

  function Charge(s: Sched): Sched
    requires Shape(s)
  {
    s.(tasks := s.tasks[s.current := s.tasks[s.current].(cpuTime := Wrap64(s.tasks[s.current].cpuTime + 1))])
  }

  /** The kernel task, tid 0, is not preempted by the tick. */
  function Tick(s: Sched, now: Word64): Sched
    requires Shape(s)
  {
    if !s.enabled then s
    else
      var w := Wake(Charge(s), now, 0);
      WakeShape(Charge(s), now, 0);
      if w.queue != [] && w.tasks[w.current].tid != 0 then Schedule(w) else w
  }

  function Block(s: Sched, reason: nat): Sched
    requires Shape(s)
  {
    Dispatch(s.(tasks := s.tasks[s.current := s.tasks[s.current].(state := Blocked, blockReason := reason)]))
  }

  /** task_unblock; NONE is the null pointer. */
  function Unblock(s: Sched, t: int): Sched
    requires Shape(s) && NONE <= t < MAX_TASKS
  {
    if t == NONE || s.tasks[t].state != Blocked then s
    else Enqueue(s.(tasks := s.tasks[t := s.tasks[t].(blockReason := 0)]), t)
  }

  function Sleep(s: Sched, now: Word64, ms: nat): Sched
    requires Shape(s)
  {
    Schedule(s.(tasks := s.tasks[s.current := s.tasks[s.current].(wakeTime := Wrap64(now + ms), state := Sleeping)]))
  }

  function Exit(s: Sched): Sched
    requires Shape(s)
  {
    Dispatch(SetState(s, s.current, Zombie))
  }

  lemma {:induction false} WakeShape(s: Sched, now: Word64, i: nat)
    requires Shape(s) && i <= |s.tasks|
    ensures Shape(Wake(s, now, i)) && Wake(s, now, i).current == s.current && Wake(s, now, i).idle == s.idle
    ensures s.queue <= Wake(s, now, i).queue
    decreases |s.tasks| - i
  {
    if i < |s.tasks| {
      if s.tasks[i].state == Sleeping && s.tasks[i].wakeTime <= now {
        WakeShape(Enqueue(s, i), now, i + 1);
      } else {
        WakeShape(s, now, i + 1);
      }
    }
  }

  datatype Step =
    | DoDispatch
    | DoSchedule
    | DoCreate(stack: bool)
    | DoTick(now: Word64)
    | DoBlock(reason: nat)
    | DoUnblock(task: int)
    | DoSleep(start: Word64, ms: nat)
    | DoExit
    | DoEnable(on: bool)

  ghost predicate Possible(step: Step) {
    step.DoUnblock? ==> NONE <= step.task < MAX_TASKS
  }

  function Apply(s: Sched, step: Step): Sched
    requires Shape(s) && Possible(step)
  {
    match step
    case DoDispatch => Dispatch(s)
    case DoSchedule => Schedule(s)
    case DoCreate(stack) => Create(s, stack)
    case DoTick(now) => Tick(s, now)
    case DoBlock(reason) => Block(s, reason)
    case DoUnblock(t) => Unblock(s, t)
    case DoSleep(now, ms) => Sleep(s, now, ms)
    case DoExit => Exit(s)
    case DoEnable(on) => s.(enabled := on)
  }

  /** A task that gives up the processor needs another one to take it: there is no fallback
      to idle, and sleeping dispatches only while the scheduler is enabled. */
  predicate Guard(s: Sched, step: Step) {
    match step
    case DoBlock(_) => s.queue != []
    case DoExit => s.queue != []
    case DoSleep(_, _) => s.queue != [] && s.enabled
    case _ => true
  }
}
