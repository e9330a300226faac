/** What each call and interrupt of the scheduler does (kernel/task.c), told by its effect alone: who runs,
who is where, and in which state.  With these a running task is preempted by every call or interrupt that
schedules, and a ready task waits for no more of them than there are tasks before it. */
module SchedEffects {
  import opened SchedModel
  import opened SchedRuns
  import opened SchedLaws

  /** The rest of the state is as it was. */
  predicate SameElse(v: View, w: View, q: Queue) {
    && w.enabled == v.enabled && w.ticks == v.ticks && w.queues.Keys == v.queues.Keys
    && forall r | r in v.queues && r != q && r != READY :: w.queues[r] == v.queues[r]
  }

  /** Only the tasks of `ts` change their state. */
  ghost predicate SameStates(v: View, w: View, ts: seq<Task>) {
    v.state.Keys <= w.state.Keys && forall t | t in v.state && t !in ts :: w.state[t] == v.state[t]
  }

  /** The running task gives way to the first of `ready` and goes behind the others; it goes on when there is
      none. */
  predicate Yielded(v: View, ready: seq<Task>, w: View) {
    && READY in w.queues && !w.postponed && w.idle == 0
    && if ready == [] then
         && w.current == v.current && v.current in w.state && w.state[v.current] == Running
         && w.queues[READY] == [] && w.switches == v.switches
       else
         && w.current == ready[0] && ready[0] in w.state && w.state[ready[0]] == Running
         && v.current in w.state && w.state[v.current] == Ready && ready[0] != v.current
         && w.queues[READY] == ready[1..] + [v.current] && w.switches == v.switches + 1
  }

  /** The task that ran, now in state `s`, leaves the processor to the first of `ready`; it idles when there is
      none. */
  predicate GaveUp(v: View, ready: seq<Task>, s: TaskState, w: View) {
    && READY in w.queues && !w.postponed && v.current in w.state && w.state[v.current] == s
    && if ready == [] then
         w.current == 0 && w.idle == v.current && w.lockCount == 1 && w.queues[READY] == [] && w.switches == v.switches
       else
         && w.current == ready[0] && ready[0] in w.state && w.state[ready[0]] == Running && ready[0] != v.current
         && w.idle == 0 && w.lockCount == 0 && w.queues[READY] == ready[1..] && w.switches == v.switches + 1
  }

  /** Nobody is dispatched yet: the ready queue is `ready`. */
  predicate NotYet(v: View, ready: seq<Task>, w: View) {
    && READY in w.queues && w.queues[READY] == ready
    && w.current == v.current && w.idle == v.idle && w.lockCount == v.lockCount && w.switches == v.switches
  }

  // ----- the end of a call -----

  /** The last unlock of a call that schedules, made by a task that still runs. */
  lemma UnlockYields(b: View)
    requires Leaving(b) && b.lockCount == 1 && b.postponed && b.current != 0 && b.state[b.current] == Running
    ensures Yielded(b, b.queues[READY], SchedModel.Unlock(b)) && SchedModel.Unlock(b).lockCount == 0
    ensures SameElse(b, SchedModel.Unlock(b), READY)
    ensures SameStates(b, SchedModel.Unlock(b), [b.current] + b.queues[READY][..Min1(b.queues[READY])])
  {
    hide Places;
    if b.queues[READY] != [] { HeadIsOther(b); }
  }

  /** 1 if there is a first task. */
  function Min1(ts: seq<Task>): (n: nat)
    ensures n <= |ts|
  {
    if ts == [] then 0 else 1
  }

  lemma HeadIsOther(b: View)
    requires Places(b) && b.current in b.state && b.state[b.current] != Ready && b.queues[READY] != []
    ensures b.queues[READY][0] != b.current
  {
    assert At(b, READY, 0, b.queues[READY][0]);
  }

  /** ... and by one that does not. */
  lemma UnlockGivesUp(b: View)
    requires Leaving(b) && b.enabled && b.lockCount == 1 && b.postponed
    requires b.current != 0 && b.state[b.current] != Running
    ensures GaveUp(b, b.queues[READY], b.state[b.current], SchedModel.Unlock(b))
    ensures SameElse(b, SchedModel.Unlock(b), READY)
    ensures SameStates(b, SchedModel.Unlock(b), [b.current] + b.queues[READY][..Min1(b.queues[READY])])
  {
    hide Places;
    if b.queues[READY] != [] { HeadIsOther(b); }
  }

  lemma UnlockWaits(b: View)
    requires Leaving(b) && (b.lockCount > 1 || !b.enabled || !b.postponed)
    ensures SchedModel.Unlock(b) == b.(lockCount := b.lockCount - 1)
  {
  }

  // ----- scheduling a running task -----

  /** The tasks that a wakeup makes ready, in the order in which they went to sleep. */
  function Risen(v: View, e: Event): seq<Task> {
    if e.Wakeup? && WAIT in v.queues then Expired(v.target, v.ticks, v.queues[WAIT]) else []
  }

  predicate Schedules(v: View, e: Event) {
    (e.Yield? || e.Wakeup?) && v.current != 0 && v.lockCount == 0
  }

  lemma RunningBody(v: View, e: Event)
    requires Ok(v) && Allowed(v, e) && Schedules(v, e)
    ensures v.enabled && Locks(v, e)
    ensures var b := Body(v, e);
            && b.lockCount == 1 && b.postponed && b.current == v.current && b.current in b.state
            && b.state[b.current] == Running && b.queues[READY] == v.queues[READY] + Risen(v, e)
            && b.switches == v.switches && SameElse(v, b, WAIT) && SameStates(v, b, Risen(v, e))
            && (forall t | t in Risen(v, e) :: t in b.state && b.state[t] == Ready)
            && (forall t | t in v.target :: t in b.target && b.target[t] == if t in Risen(v, e) then 0 else v.target[t])
  {
    hide Places, Expired, Sleeping;
    if e.Wakeup? {
      RunnerSleepsNot(v);
      RisenKnown(v);
    }
  }

  lemma RisenKnown(v: View)
    requires Ok(v)
    ensures forall t | t in Expired(v.target, v.ticks, v.queues[WAIT]) :: t in v.state
  {
    hide Expired;
    forall t | t in v.queues[WAIT]
      ensures t in v.state
    {
      var i: nat :| i < |v.queues[WAIT]| && v.queues[WAIT][i] == t;
      assert At(v, WAIT, i, t);
    }
  }

  lemma RunnerSleepsNot(v: View)
    requires Ok(v) && v.current != 0
    ensures v.current !in Expired(v.target, v.ticks, v.queues[WAIT])
  {
    NotExpired(v, v.current);
  }

  /** Preemption: a `yield`, and every timer interrupt that wakes or finds a ready task, takes the processor
      from the running task, which goes to the end of the ready queue, for the first ready one. */
  lemma Preempts(v: View, e: Event)
    requires Ok(v) && Allowed(v, e) && Schedules(v, e)
    ensures Yielded(v, v.queues[READY] + Risen(v, e), Next(v, e))
    ensures Next(v, e).lockCount == 0 && SameElse(v, Next(v, e), WAIT)
    ensures var ready := v.queues[READY] + Risen(v, e);
            && SameStates(v, Next(v, e), [v.current] + v.queues[READY][..Min1(v.queues[READY])] + Risen(v, e))
            && forall t <- Risen(v, e) :: t != ready[0] ==> t in Next(v, e).state && Next(v, e).state[t] == Ready
  {
    hide Ok, Body, SchedModel.Unlock, Allowed, Locks, Leaving, Expired;
    RunningBody(v, e);
    BodyKeeps(v, e);
    OkShape(v);
    UnlockYields(Body(v, e));
  }

  lemma OkShape(v: View)
    requires Ok(v)
    ensures READY in v.queues && WAIT in v.queues
  {
  }

  /** How many of the calls are a `yield` or a wakeup of a running task without the lock. */
  ghost function Schedulings(v: View, es: seq<Event>): nat
    requires Ok(v) && Legal(v, es)
    decreases |es|
  {
    if es == [] then 0
    else
      StepKeeps(v, es[0]);
      (if Schedules(v, es[0]) then 1 else 0) + Schedulings(Next(v, es[0]), es[1..])
  }

  /** Task `t` runs in some state along `es`. */
  ghost predicate Runs(v: View, es: seq<Event>, t: Task)
    requires Ok(v) && Legal(v, es)
    decreases |es|
  {
    v.current == t || (es != [] && (StepKeeps(v, es[0]); Runs(Next(v, es[0]), es[1..], t)))
  }

  /** No starvation: the task at place `k` of the ready queue runs before `k + 1` schedulings are over. */
  lemma {:induction false} RunsInTime(v: View, es: seq<Event>, k: nat, t: Task)
    requires Ok(v) && Legal(v, es) && At(v, READY, k, t) && Schedulings(v, es) > k
    ensures Runs(v, es, t)
    decreases |es|
  {
    hide Ok, Next, Allowed, Schedules, Yielded, SameElse;
    if es != [] {
      var e := es[0];
      var w := Next(v, e);
      StepKeeps(v, e);
      ReadyStep(v, e);
      if Schedules(v, e) {
        SchedulingMoves(v, e);
      }
      if w.switches == v.switches {
        RunsInTime(w, es[1..], k, t);
      } else if k > 0 {
        RunsInTime(w, es[1..], k - 1, t);
      }
    }
  }

  lemma SchedulingMoves(v: View, e: Event)
    requires Ok(v) && Allowed(v, e) && Schedules(v, e) && v.queues[READY] != []
    ensures Next(v, e).switches == v.switches + 1
  {
    hide Ok, Next, Allowed, Schedules, Expired;
    Preempts(v, e);
  }

  // ----- leaving the processor -----

  /** Which queue and state a call puts its caller into, if it does. */
  predicate Leaves(v: View, e: Event, q: Queue, s: TaskState) {
    || (e.Block? && q == e.queue && s == e.reason)
    || ((e.SleepUntil? || e.SleepFor?) && q == WAIT && s == Waiting)
    || (e.Acquire? && q == e.sem && q in v.sems && v.sems[q] == 0 && s == BlockedLock)
  }

  lemma LeavingBody(v: View, e: Event, q: Queue, s: TaskState)
    requires Ok(v) && Allowed(v, e) && Leaves(v, e, q, s)
    ensures v.enabled && Locks(v, e) && v.current != 0 && q in v.queues && q != READY
    ensures s != Running
    ensures var b := Body(v, e);
            && b.lockCount == 1 && b.postponed && b.current == v.current && b.current in b.state
            && b.state[b.current] == s && b.queues[q] == v.queues[q] + [v.current]
            && b.queues[READY] == v.queues[READY] && b.switches == v.switches && SameElse(v, b, q)
            && SameStates(v, b, [v.current])
  {
    hide Places;
  }

  /** `task_block`, the two sleep calls and an acquire without a count: the caller is last in that queue, in that
      state, and the processor goes to the first ready task. */
  lemma LeavesProcessor(v: View, e: Event, q: Queue, s: TaskState)
    requires Ok(v) && Allowed(v, e) && Leaves(v, e, q, s)
    ensures var w := Next(v, e);
            && GaveUp(v, v.queues[READY], s, w) && SameElse(v, w, q)
            && SameStates(v, w, [v.current] + v.queues[READY][..Min1(v.queues[READY])])
            && q in v.queues && q in w.queues && w.queues[q] == v.queues[q] + [v.current]
  {
    hide Ok, Body, SchedModel.Unlock, Allowed, Locks, Leaving;
    LeavingBody(v, e, q, s);
    BodyKeeps(v, e);
    UnlockGivesUp(Body(v, e));
  }

  /** `task_exit`: the caller is terminated and in no queue. */
  lemma ExitEffect(v: View)
    requires Ok(v) && Allowed(v, Exit)
    ensures var w := Next(v, Exit);
            && GaveUp(v, v.queues[READY], Terminated, w) && SameElse(v, w, READY)
            && SameStates(v, w, [v.current] + v.queues[READY][..Min1(v.queues[READY])])
            && forall q | q in w.queues :: v.current !in w.queues[q]
  {
    hide Places;
    var w := Next(v, Exit);
    if v.queues[READY] != [] { HeadIsOther(v); }
    ExitedNowhere(v);
    hide Dispatch;
  }

  lemma ExitedNowhere(v: View)
    requires Ok(v) && v.current != 0
    ensures forall q | q in v.queues :: v.current !in v.queues[q]
  {
    forall q | q in v.queues
      ensures v.current !in v.queues[q]
    {
      if v.current in v.queues[q] {
        var i: nat :| i < |v.queues[q]| && v.queues[q][i] == v.current;
        assert At(v, q, i, v.current);
      }
    }
  }

  // ----- making others ready -----

  /** `task_add`: the new task is ready and last, and nothing else changes. */
  lemma AddEffect(v: View, t: Task)
    requires Ok(v) && Allowed(v, Add(t))
    ensures var w := Next(v, Add(t));
            && NotYet(v, v.queues[READY] + [t], w) && SameElse(v, w, READY) && w.postponed == v.postponed
            && w.state == v.state[t := Ready] && w.target == v.target[t := 0] && w.sems == v.sems
  {
    hide Places;
  }

  /** The queue that a call takes a task from to make it ready. */
  predicate Serves(v: View, e: Event, q: Queue) {
    q in v.queues && v.queues[q] != [] && (e == UnblockNext(q) || e == Release(q))
  }

  lemma ServingBody(v: View, e: Event, q: Queue)
    requires Ok(v) && Allowed(v, e) && Serves(v, e, q)
    ensures Locks(v, e) && q != READY && v.enabled
    ensures var b, t := Body(v, e), v.queues[q][0];
            && b.lockCount == v.lockCount + 1 && b.postponed && b.current == v.current && b.idle == v.idle
            && t in b.state && b.state == v.state[t := Ready] && b.queues[q] == v.queues[q][1..]
            && b.queues[READY] == v.queues[READY] + [t] && b.switches == v.switches && SameElse(v, b, q)
    ensures v.current != 0 ==> v.queues[q][0] != v.current && v.current in v.state && v.state[v.current] == Running
  {
    hide Places;
    QueuedIsOther(v, q);
  }

  lemma QueuedIsOther(v: View, q: Queue)
    requires Ok(v) && q in v.queues && v.queues[q] != []
    ensures v.queues[q][0] in v.state && v.queues[q][0] != v.current
  {
    assert At(v, q, 0, v.queues[q][0]);
  }

  /** `task_unblock_next`, and a release with waiters: the first of the queue becomes the last of the ready ones, and
      a running caller without the lock gives way at once. */
  lemma ServesFirst(v: View, e: Event, q: Queue)
    requires Ok(v) && Allowed(v, e) && Serves(v, e, q)
    ensures var w, ready := Next(v, e), v.queues[READY] + [v.queues[q][0]];
            && SameElse(v, w, q) && q in w.queues && w.queues[q] == v.queues[q][1..]
            && SameStates(v, w, [v.current, v.queues[q][0]] + v.queues[READY][..Min1(v.queues[READY])])
            && if v.lockCount == 0 then Yielded(v, ready, w) && w.lockCount == 0
               else NotYet(v, ready, w) && w.postponed && w.state == v.state[v.queues[q][0] := Ready]
  {
    hide Ok, Body, SchedModel.Unlock, Allowed, Locks, Leaving;
    ServingBody(v, e, q);
    BodyKeeps(v, e);
    if v.lockCount == 0 {
      RunningUnlocked(v);
      UnlockYields(Body(v, e));
    } else {
      UnlockWaits(Body(v, e));
    }
  }

  /** Once tasks run, only the idle loop runs none, and it holds the lock. */
  lemma RunningUnlocked(v: View)
    requires Ok(v) && v.enabled && v.lockCount == 0
    ensures v.current != 0
  {
  }

  /** `task_unblock_next` on an empty queue does nothing, and neither does a wakeup before `tasking_enable`. */
  lemma NothingToServe(v: View, e: Event)
    requires Ok(v) && Allowed(v, e)
    requires (e.UnblockNext? && v.queues[e.queue] == []) || (e.Wakeup? && !v.enabled)
    ensures Next(v, e) == v
  {
    hide Places;
  }

  /** An acquire with a count, and a release without waiters, only count. */
  lemma OnlyCounts(v: View, e: Event)
    requires Ok(v) && Allowed(v, e)
    requires (e.Acquire? && v.sems[e.sem] > 0) || (e.Release? && v.queues[e.sem] == [])
    ensures Next(v, e) == v.(sems := v.sems[e.sem := if e.Acquire? then v.sems[e.sem] - 1 else v.sems[e.sem] + 1])
  {
    hide Places;
  }

  /** A wakeup under the lock, or while the processor idles, makes the sleepers ready that are due; no other task
      changes. */
  lemma WakeupEffect(v: View)
    requires Ok(v) && v.enabled && v.lockCount > 0
    ensures var w := Next(v, Wakeup);
            && NotYet(v, v.queues[READY] + Risen(v, Wakeup), w) && w.postponed && SameElse(v, w, WAIT)
            && w.state.Keys == v.state.Keys
            && forall t | t in v.state :: w.state[t] == if t in Risen(v, Wakeup) then Ready else v.state[t]
  {
    hide Places, Expired, Sleeping;
  }

  // ----- the lock, the idle loop and the start -----

  /** A `yield` under the lock leaves it to the last unlock to schedule. */
  lemma YieldLater(v: View)
    requires Ok(v) && Allowed(v, Yield) && v.lockCount > 0
    ensures Next(v, Yield) == v.(postponed := true)
  {
    hide Places;
  }

  lemma LockEffect(v: View)
    requires Ok(v) && Allowed(v, Lock)
    ensures Next(v, Lock) == v.(lockCount := v.lockCount + 1) && Next(v, Tick) == v.(ticks := v.ticks + 1)
  {
  }

  /** The last unlock schedules what was postponed; any other only counts. */
  lemma UnlockEffect(v: View)
    requires Ok(v) && Allowed(v, Event.Unlock)
    ensures var w := Next(v, Event.Unlock);
            if v.lockCount == 1 && v.postponed then
              Yielded(v, v.queues[READY], w) && w.lockCount == 0 && SameElse(v, w, READY)
            else w == v.(lockCount := v.lockCount - 1)
  {
    hide Places, SchedModel.Unlock;
    UnlockLeaves(v);
    if v.lockCount == 1 && v.postponed {
      UnlockYields(v);
    } else {
      UnlockWaits(v);
    }
  }

  /** The end of the idle loop runs the first ready task, and so does `tasking_enable`. */
  lemma ResumeEffect(v: View, e: Event)
    requires Ok(v) && Allowed(v, e) && (e.Resume? || e.Enable?)
    ensures var w, ready := Next(v, e), v.queues[READY];
            && ready != [] && READY in w.queues && w.queues[READY] == ready[1..]
            && w.current == ready[0] && ready[0] in w.state && w.state == v.state[ready[0] := Running]
            && w.idle == 0 && w.lockCount == 0 && !w.postponed && w.enabled && w.switches == v.switches + 1
  {
    hide Places;
  }
}
