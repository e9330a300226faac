/** What every call and interrupt of the scheduler does to the state, and what holds of every run:
one place per task, round-robin waiting, sleeping, and semaphores (kernel/task.c). */
module SchedRuns {
  import opened SchedModel

  /** One step: a call made by the running task or by an interrupt handler, the end of the idle loop,
  or a tick of the timer.  Semaphores are named by their queue of blocked tasks. */
  datatype Event =
    | Lock
    | Unlock
    | Yield
    | Block(queue: Queue, reason: TaskState)
    | UnblockNext(queue: Queue)
    | SleepUntil(time: nat)       // past its test of the time, which is before the lock: ticks may have passed
    | SleepFor(delay: nat)
    | Tick
    | Wakeup
    | Acquire(sem: Queue)
    | Release(sem: Queue)
    | Add(task: Task)
    | Exit
    | Resume
    | Enable

  function Locked(v: View): View {
    v.(lockCount := v.lockCount + 1)
  }

  function Postpone(v: View): View {
    v.(postponed := true)
  }

  /** The current task goes to sleep until `time`. */
  function Sleep(v: View, time: nat): View
    requires WAIT in v.queues
  {
    BlockOn(v.(target := v.target[v.current := time]), WAIT, v.current, Waiting)
  }

  /** `scheduler_ready` is set and some task is running with no lock held. */
  predicate CanBlock(v: View) {
    v.enabled && v.lockCount == 0
  }

  /** A queue of a mutex or a process. */
  predicate Plain(v: View, q: Queue) {
    q in v.queues && q != READY && q != WAIT && q !in v.sems
  }

  /** No task has its record at `t`: none ever had, or the one that had is gone. */
  predicate Spare(v: View, t: Task) {
    t in v.state ==> v.state[t] == Terminated && t != v.current && t != v.idle
  }

  /** What a caller must see to, from the assertions at the head of each function. */
  predicate Allowed(v: View, e: Event) {
    match e
    case Lock => true
    case Unlock => v.lockCount > if v.idle == 0 then 0 else 1
    case Yield => v.enabled
    case Block(q, reason) => CanBlock(v) && Plain(v, q) && (reason == Blocked || reason == BlockedLock)
    case UnblockNext(q) => Plain(v, q)
    case SleepUntil(time) => CanBlock(v)
    case SleepFor(delay) => CanBlock(v)
    case Tick => true
    case Wakeup => true
    case Acquire(s) => s in v.sems && v.lockCount == 0 && (v.sems[s] == 0 ==> v.enabled)
    case Release(s) => s in v.sems
    case Add(t) => t != 0 && Spare(v, t)
    case Exit => v.lockCount == 1 && v.current != 0
    case Resume => v.idle != 0 && v.lockCount == 1 && READY in v.queues && v.queues[READY] != []
    case Enable => !v.enabled && v.lockCount == 0 && READY in v.queues && v.queues[READY] != []
  }

  // ----- the invariant -----

  /** No signal is kept in a count while a task waits for it. */
  ghost predicate SemsOk(v: View) {
    forall s | s in v.sems :: s in v.queues && s != READY && s != WAIT && (v.sems[s] > 0 ==> v.queues[s] == [])
  }

  /** Before `tasking_enable` tasks are only added. */
  ghost predicate Quiet(v: View) {
    && v.current == 0 && v.idle == 0 && !v.postponed
    && forall q | q in v.queues && q != READY :: v.queues[q] == []
  }

  /** Who has the processor: the current task, or the one that idles. */
  ghost predicate Roles(v: View) {
    && READY in v.queues && WAIT in v.queues && 0 !in v.state && v.state.Keys == v.target.Keys
    && (v.current != 0 ==> v.current in v.state && v.idle == 0)
    && (v.idle != 0 ==> v.idle in v.state)
    && (if v.enabled then v.current != 0 || v.idle != 0 else Quiet(v))
  }

  ghost predicate Core(v: View) {
    Places(v) && SemsOk(v) && Roles(v)
  }

  /** What holds between any two steps. */
  ghost predicate Ok(v: View): (ok: bool)
    ensures ok ==> Shaped(v)
  {
    && Core(v) && Shaped(v)
    && (v.current != 0 ==> v.state[v.current] == Running)
    && (v.postponed ==> v.lockCount > 0)
    && (v.idle != 0 ==> v.lockCount > 0)
  }

  /** What holds before the last `scheduler_unlock` of a call: a task that is no longer running gives
  way there. */
  ghost predicate Leaving(v: View) {
    && Core(v) && v.lockCount > 0
    && (v.current != 0 && v.state[v.current] != Running ==>
          v.postponed && v.lockCount == 1 && v.state[v.current] != Ready)
    && (v.idle != 0 ==> v.lockCount > 1)
  }

  /** What the functions below need to be defined. */
  predicate Shaped(v: View) {
    && READY in v.queues && WAIT in v.queues && (forall s <- v.sems :: s in v.queues)
    && (v.enabled ==> v.current in v.state || (v.idle != 0 && v.lockCount > 0))
  }

  /** The calls that hold the scheduler lock. */
  predicate Locks(v: View, e: Event) {
    match e
    case Lock | Unlock | Tick | Exit | Resume | Enable => false
    case Wakeup => v.enabled
    case _ => true
  }

  /** What such a call has done when it comes to its last `scheduler_unlock`. */
  function Body(v: View, e: Event): (w: View)
    requires Shaped(v) && Allowed(v, e) && Locks(v, e)
  {
    var l := Locked(v);
    if e.Block? then Postpone(BlockOn(l, e.queue, v.current, e.reason))
    else if e.UnblockNext? then UnblockFirst(l, e.queue)
    else if e.SleepUntil? then Postpone(Sleep(l, e.time))
    else if e.SleepFor? then Postpone(Sleep(l, v.ticks + e.delay))
    else if e.Wakeup? then Postpone(WakeAll(l))
    else if e.Acquire? then
      if v.sems[e.sem] > 0 then l.(sems := v.sems[e.sem := v.sems[e.sem] - 1])
      else Postpone(BlockOn(l, e.sem, v.current, BlockedLock))
    else if e.Release? then
      if v.queues[e.sem] != [] then UnblockFirst(l, e.sem)
      else l.(sems := v.sems[e.sem := v.sems[e.sem] + 1])
    else if e.Add? then Enqueue(SetState(l.(target := v.target[e.task := 0]), e.task, Ready), READY, e.task)
    else Postpone(l)
  }

  predicate SameHolder(v: View, w: View) {
    && READY in w.queues && w.lockCount == v.lockCount && w.enabled == v.enabled
    && w.current == v.current && v.state.Keys <= w.state.Keys
  }

  lemma BlockHolder(v: View, q: Queue, t: Task, s: TaskState)
    requires READY in v.queues && q in v.queues
    ensures SameHolder(v, BlockOn(v, q, t, s))
  {
  }

  lemma UnblockHolder(v: View, q: Queue)
    requires READY in v.queues && q in v.queues
    ensures SameHolder(v, UnblockFirst(v, q))
  {
  }

  lemma WakeHolder(v: View)
    requires READY in v.queues && WAIT in v.queues
    ensures SameHolder(v, WakeAll(v))
  {
    hide Expired, Sleeping;
    assert WakeAll(v).state.Keys == v.state.Keys;
  }

  lemma BodyEntered(v: View, e: Event)
    requires Shaped(v) && Allowed(v, e) && Locks(v, e)
    ensures SameHolder(Locked(v), Body(v, e))
  {
    hide BlockOn, UnblockFirst, WakeAll;
    var l := Locked(v);
    if e.Block? {
      BlockHolder(l, e.queue, v.current, e.reason);
    } else if e.UnblockNext? {
      UnblockHolder(l, e.queue);
    } else if e.SleepUntil? {
      BlockHolder(l.(target := v.target[v.current := e.time]), WAIT, v.current, Waiting);
    } else if e.SleepFor? {
      BlockHolder(l.(target := v.target[v.current := v.ticks + e.delay]), WAIT, v.current, Waiting);
    } else if e.Wakeup? {
      WakeHolder(l);
    } else if e.Acquire? {
      BlockHolder(l, e.sem, v.current, BlockedLock);
    } else if e.Release? {
      UnblockHolder(l, e.sem);
    }
  }

  function Exited(v: View): View
    requires v.lockCount > 0
  {
    SetState(v, v.current, Terminated).(lockCount := v.lockCount - 1, postponed := false)
  }

  function Next(v: View, e: Event): View
    requires Shaped(v) && Allowed(v, e)
  {
    if Locks(v, e) then BodyEntered(v, e); SchedModel.Unlock(Body(v, e)) else
      match e
      case Lock => Locked(v)
      case Unlock => SchedModel.Unlock(v)
      case Tick => v.(ticks := v.ticks + 1)
      case Exit => Dispatch(Exited(v))
      case Resume => SchedModel.Resume(v)
      case Enable => SwitchTo(Dequeue(v, READY), v.queues[READY][0]).(enabled := true)
      case _ => v
  }

  // ----- every step keeps the invariant -----

  /** Places only speaks of the queues, the states and the current task. */
  lemma PlacesFrame(v: View, w: View)
    requires Places(v) && w.queues == v.queues && w.state == v.state && (w.current == v.current || NoneRunning(v))
    ensures Places(w)
  {
    assert forall q: Queue, i: nat, t: Task :: At(w, q, i, t) <==> At(v, q, i, t);
    forall t | t in w.state && Queued(w.state[t])
      ensures InSome(w, t)
    {
      var q: Queue, i: nat :| At(v, q, i, t);
      assert At(w, q, i, t);
    }
  }

  lemma OnlyCurrentRuns(v: View)
    requires Places(v) && (v.current in v.state ==> v.state[v.current] != Running)
    ensures NoneRunning(v)
  {
  }

  /** `__schedule`: its assertions hold on entry, and it leaves a running task or an idle processor. */
  lemma DispatchKeeps(v: View)
    requires Core(v) && v.enabled && v.current != 0 && v.state[v.current] != Ready
    requires v.lockCount == 0 && !v.postponed
    ensures Ok(Dispatch(v))
  {
    hide Places, NoneRunning;
    var w := Dispatch(v);
    if v.queues[READY] == [] {
      if v.state[v.current] != Running {
        OnlyCurrentRuns(v);
        PlacesFrame(v, w);
      }
    } else if v.state[v.current] == Running {
      PreemptKeeps(v);
    } else {
      OnlyCurrentRuns(v);
      RunKeeps(v);
    }
  }

  lemma UnlockKeeps(v: View)
    requires Leaving(v)
    ensures Ok(SchedModel.Unlock(v))
  {
    hide Places, Dispatch, NoneRunning;
    var u := v.(lockCount := v.lockCount - 1);
    PlacesFrame(v, u);
    if u.lockCount == 0 && u.enabled && u.postponed {
      PlacesFrame(v, u.(postponed := false));
      DispatchKeeps(u.(postponed := false));
    }
  }

  /** A task of the scheduler's, in a state that goes with no queue, blocks or starts to sleep. */
  lemma BlockKeeps(v: View, q: Queue, s: TaskState)
    requires Ok(v) && CanBlock(v) && q in v.queues && Fits(s, q) && q != READY
    requires q in v.sems ==> v.sems[q] == 0
    ensures Leaving(Postpone(BlockOn(Locked(v), q, v.current, s)))
  {
    hide Places, InSome, NoneRunning;
    var l, c := Locked(v), v.current;
    RunningInNone(v, c);
    PushKeeps(v, q, c, s);
    PlacesFrame(BlockOn(v, q, c, s), Postpone(BlockOn(l, q, c, s)));
  }

  lemma UnblockBody(v: View, q: Queue)
    requires Ok(v) && q in v.queues && q != READY && q != WAIT
    ensures Leaving(UnblockFirst(Locked(v), q))
  {
    hide Places, InSome, NoneRunning;
    UnblockKeeps(v, q);
    FirstState(v, q);
    PlacesFrame(UnblockFirst(v, q), UnblockFirst(Locked(v), q));
  }

  lemma FirstState(v: View, q: Queue)
    requires Places(v) && q in v.queues
    ensures v.queues[q] != [] ==> v.queues[q][0] in v.state && Fits(v.state[v.queues[q][0]], q)
  {
    if v.queues[q] != [] { assert At(v, q, 0, v.queues[q][0]); }
  }

  lemma NotExpired(v: View, c: Task)
    requires Places(v) && c in v.state && !Queued(v.state[c])
    ensures c !in Expired(v.target, v.ticks, v.queues[WAIT])
  {
    var ts := v.queues[WAIT];
    if c in ts {
      var i: nat :| i < |ts| && ts[i] == c;
      assert At(v, WAIT, i, c);
    }
  }

  lemma WakeBody(v: View)
    requires Ok(v) && v.enabled
    ensures Leaving(Postpone(WakeAll(Locked(v))))
  {
    hide Places, Expired, Sleeping, NoneRunning;
    var w := Postpone(WakeAll(Locked(v)));
    WakeKeeps(v);
    if v.current != 0 { NotExpired(v, v.current); }
    PlacesFrame(WakeAll(v), w);
    assert w.state.Keys == v.state.Keys && w.target.Keys == v.target.Keys;
  }

  lemma SpareInNone(v: View, t: Task)
    requires Places(v) && Spare(v, t)
    ensures !InSome(v, t)
  {
    if t in v.state { RunningInNone(v, t); }
  }

  lemma AddBody(v: View, t: Task)
    requires Ok(v) && t != 0 && Spare(v, t)
    ensures Leaving(Body(v, Add(t)))
  {
    var w := Body(v, Add(t));
    SpareInNone(v, t);
    PushKeeps(v, READY, t, Ready);
    PlacesFrame(BlockOn(v, READY, t, Ready), w);
    hide Places;
  }

  lemma BodyKeeps(v: View, e: Event)
    requires Ok(v) && Allowed(v, e) && Locks(v, e)
    ensures Leaving(Body(v, e))
  {
    hide Places, BlockOn, Sleep, WakeAll, UnblockFirst;
    if e.Block? {
      BlockKeeps(v, e.queue, e.reason);
    } else if e.UnblockNext? {
      UnblockBody(v, e.queue);
    } else if e.SleepUntil? {
      SleepBody(v, e.time);
    } else if e.SleepFor? {
      SleepBody(v, v.ticks + e.delay);
    } else if e.Wakeup? {
      WakeBody(v);
    } else if e.Add? {
      AddBody(v, e.task);
    } else if e.Acquire? && v.sems[e.sem] == 0 {
      BlockKeeps(v, e.sem, BlockedLock);
    } else if e.Release? && v.queues[e.sem] != [] {
      UnblockBody(v, e.sem);
    } else {
      PlacesFrame(v, Body(v, e));
    }
  }

  lemma SleepBody(v: View, time: nat)
    requires Ok(v) && CanBlock(v)
    ensures Leaving(Postpone(Sleep(Locked(v), time)))
  {
    var u := v.(target := v.target[v.current := time]);
    PlacesFrame(v, u);
    BlockKeeps(u, WAIT, Waiting);
    assert Postpone(Sleep(Locked(v), time)) == Postpone(BlockOn(Locked(u), WAIT, u.current, Waiting));
  }

  /** The main invariant: after every step each task is in exactly one place, and the lock count, the
  postponed flag and the idle mark agree. */
  lemma StepKeeps(v: View, e: Event)
    requires Ok(v) && Allowed(v, e)
    ensures Ok(Next(v, e))
  {
    if Locks(v, e) {
      BodyKeeps(v, e);
      UnlockKeeps(Body(v, e));
    } else {
      hide Places;
      if e.Unlock? {
        UnlockKeeps(v);
      } else if e.Exit? {
        ExitKeeps(v);
      } else if e.Resume? {
        ResumeKeeps(v);
      } else if e.Enable? {
        EnableKeeps(v);
      } else {
        PlacesFrame(v, Next(v, e));
      }
    }
  }

  /** `task_exit` up to its call of `__schedule` */
  lemma ExitCore(v: View)
    requires Ok(v) && Allowed(v, Exit)
    ensures Core(Exited(v))
  {
    var c := v.current;
    var w := Exited(v);
    RunningInNone(v, c);
    assert forall q: Queue, i: nat, t: Task :: At(w, q, i, t) <==> At(v, q, i, t);
    forall t | t in w.state && Queued(w.state[t])
      ensures InSome(w, t)
    {
      var q: Queue, i: nat :| At(v, q, i, t);
      assert At(w, q, i, t);
    }
  }

  lemma ExitKeeps(v: View)
    requires Ok(v) && Allowed(v, Exit)
    ensures Ok(Next(v, Exit))
  {
    hide Ok, Core, Dispatch;
    ExitCore(v);
    ExitShape(v);
    DispatchKeeps(Exited(v));
  }

  lemma ExitShape(v: View)
    requires Ok(v) && Allowed(v, Exit)
    ensures v.enabled && v.current in v.state && v.state[v.current] == Running
  {
    hide Places, SemsOk;
  }

  lemma ResumeKeeps(v: View)
    requires Ok(v) && Allowed(v, Event.Resume)
    ensures Ok(Next(v, Event.Resume))
  {
    hide Places, NoneRunning;
    var t := v.queues[READY][0];
    OnlyCurrentRuns(v);
    RunKeeps(v);
    PlacesFrame(SwitchTo(Dequeue(v, READY), t), Next(v, Event.Resume));
  }

  lemma EnableKeeps(v: View)
    requires Ok(v) && Allowed(v, Enable)
    ensures Ok(Next(v, Enable))
  {
    hide Places, NoneRunning;
    var t := v.queues[READY][0];
    OnlyCurrentRuns(v);
    RunKeeps(v);
    PlacesFrame(SwitchTo(Dequeue(v, READY), t), Next(v, Enable));
  }

  /** The state at boot: empty queues, semaphores at zero, nobody running. */
  function Boot(queues: set<Queue>, sems: set<Queue>): View {
    View(map q | q in queues :: [], map[], map[], 0, 0, 0, false, false, 0, map s | s in sems :: 0, 0)
  }

  lemma BootOk(queues: set<Queue>, sems: set<Queue>)
    requires READY in queues && WAIT in queues && sems <= queues - {READY, WAIT}
    ensures Ok(Boot(queues, sems))
  {
    var v := Boot(queues, sems);
    assert forall q: Queue, i: nat, t: Task :: !At(v, q, i, t);
  }
}
