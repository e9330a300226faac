/** What holds of every run of the scheduler: tasks take turns, sleepers sleep exactly until their
time, and semaphores lose no signal (kernel/task.c). */
module SchedLaws {
  import opened SchedModel
  import opened SchedRuns

  /** Every call of `es` is made when it may be made. */
  ghost predicate Legal(v: View, es: seq<Event>)
    requires Ok(v)
    decreases |es|
  {
    es == [] || (Allowed(v, es[0]) && (StepKeeps(v, es[0]); Legal(Next(v, es[0]), es[1..])))
  }

  ghost function Run(v: View, es: seq<Event>): View
    requires Ok(v) && Legal(v, es)
    decreases |es|
  {
    if es == [] then v else StepKeeps(v, es[0]); Run(Next(v, es[0]), es[1..])
  }

  /** Whatever tasks and interrupts do and in whatever order, the invariant holds. */
  lemma {:induction false} RunKeepsAll(v: View, es: seq<Event>)
    requires Ok(v) && Legal(v, es)
    ensures Ok(Run(v, es))
    decreases |es|
  {
    hide Ok, Next, Allowed;
    if es != [] {
      StepKeeps(v, es[0]);
      RunKeepsAll(Next(v, es[0]), es[1..]);
    }
  }

  /** What `Ok` promises about a task: one place, and the one that its state names. */
  lemma OnePlace(v: View, t: Task)
    requires Ok(v) && t in v.state
    ensures v.state[t] == Running <==> t == v.current
    ensures v.state[t] == Ready <==> t in v.queues[READY]
    ensures v.state[t] == Waiting <==> t in v.queues[WAIT]
    ensures v.state[t] == Blocked || v.state[t] == BlockedLock <==>
              exists q | q in v.queues && q != READY && q != WAIT :: t in v.queues[q]
  {
    if Queued(v.state[t]) {
      var q: Queue, i: nat :| At(v, q, i, t);
      assert v.queues[q][i] in v.queues[q];
    }
    forall q | q in v.queues && t in v.queues[q]
      ensures Fits(v.state[t], q)
    {
      var i: nat :| i < |v.queues[q]| && v.queues[q][i] == t;
      assert At(v, q, i, t);
    }
  }

  /** What a dispatch, and so the end of a call, may change: the first ready task leaves its queue for
  the processor, and the task that ran may join the queue's end. */
  ghost predicate Moved(b: View, w: View) {
    && READY in b.queues && w.queues.Keys == b.queues.Keys
    && (forall q | q in b.queues && q != READY :: w.queues[q] == b.queues[q])
    && w.target == b.target && w.sems == b.sems
    && (if w.switches == b.switches then w.queues[READY] == b.queues[READY] else Took(b.queues[READY], b, w))
  }

  predicate Took(ready: seq<Task>, b: View, w: View) {
    && w.switches == b.switches + 1 && READY in w.queues
    && (ready != [] ==> w.current == ready[0] && ready[1..] <= w.queues[READY])
  }

  lemma UnlockMoves(b: View)
    requires Leaving(b)
    ensures Moved(b, SchedModel.Unlock(b))
  {
    hide Places;
  }

  /** The queue, other than that of the ready tasks, that a call works on. */
  function Touched(e: Event): Queue {
    match e
    case Block(q, _) => q
    case UnblockNext(q) => q
    case Acquire(s) => s
    case Release(s) => s
    case SleepUntil(_) => WAIT
    case SleepFor(_) => WAIT
    case Wakeup => WAIT
    case _ => READY
  }

  /** Before its last unlock a call that works on `q` leaves any other queue `r` alone, except that it
  may add to the end of the ready queue. */
  predicate Framed(v: View, b: View, q: Queue, r: Queue) {
    && r in v.queues && r in b.queues && b.switches == v.switches
    && (r == READY ==> v.queues[r] <= b.queues[r])
    && (r != READY && r != q ==> b.queues[r] == v.queues[r])
    && (r in v.sems <==> r in b.sems)
    && (r in v.sems && r != q ==> b.sems[r] == v.sems[r])
  }

  lemma BlockFrame(v: View, q: Queue, t: Task, s: TaskState, r: Queue)
    requires r in v.queues && READY in v.queues && q in v.queues
    ensures Framed(v, BlockOn(v, q, t, s), q, r)
  {
  }

  lemma UnblockFrame(v: View, q: Queue, r: Queue)
    requires r in v.queues && READY in v.queues && q in v.queues && q != READY
    ensures Framed(v, UnblockFirst(v, q), q, r)
  {
  }

  lemma WakeFrame(v: View, r: Queue)
    requires r in v.queues && READY in v.queues && WAIT in v.queues
    ensures Framed(v, WakeAll(v), WAIT, r)
  {
    hide Expired, Sleeping;
  }

  lemma BodyFrame(v: View, e: Event, r: Queue)
    requires r in v.queues && Ok(v) && Allowed(v, e) && Locks(v, e)
    ensures Framed(v, Body(v, e), Touched(e), r)
  {
    hide Places, Quiet, Roles, BlockOn, UnblockFirst, WakeAll, Fits;
    var l := Locked(v);
    if e.Block? {
      BlockFrame(l, e.queue, v.current, e.reason, r);
    } else if e.UnblockNext? {
      UnblockFrame(l, e.queue, r);
    } else if e.SleepUntil? {
      BlockFrame(l.(target := v.target[v.current := e.time]), WAIT, v.current, Waiting, r);
    } else if e.SleepFor? {
      BlockFrame(l.(target := v.target[v.current := v.ticks + e.delay]), WAIT, v.current, Waiting, r);
    } else if e.Wakeup? {
      WakeFrame(l, r);
    } else if e.Acquire? {
      BlockFrame(l, e.sem, v.current, BlockedLock, r);
    } else if e.Release? {
      UnblockFrame(l, e.sem, r);
    }
  }

  lemma UnlockLeaves(v: View)
    requires Ok(v) && Allowed(v, Event.Unlock)
    ensures Leaving(v)
  {
    hide Places;
  }

  /** The steps that are not calls under the lock: only a dispatch moves a task. */
  lemma DirectMoves(v: View, e: Event)
    requires Ok(v) && Allowed(v, e) && !Locks(v, e)
    ensures Moved(v, Next(v, e))
  {
    hide Places, SchedModel.Unlock, SemsOk;
    if e.Unlock? {
      UnlockLeaves(v);
      UnlockMoves(v);
    } else if e.Exit? {
      ExitMoves(v);
    }
  }

  lemma ExitMoves(v: View)
    requires Ok(v) && Allowed(v, Exit)
    ensures Moved(v, Next(v, Exit))
  {
    hide Places, SchedModel.Unlock, SemsOk;
  }

  /** One step: either nobody is dispatched and the ready queue only grows at its end, or exactly its
  first task is. */
  lemma ReadyStep(v: View, e: Event)
    requires Ok(v) && Allowed(v, e)
    ensures var w := Next(v, e);
            READY in w.queues &&
            if w.switches == v.switches then v.queues[READY] <= w.queues[READY]
            else Took(v.queues[READY], v, w)
  {
    hide Ok, Body, SchedModel.Unlock, Allowed, Locks, Leaving;
    if Locks(v, e) {
      BodyFrame(v, e, READY);
      BodyKeeps(v, e);
      UnlockMoves(Body(v, e));
    } else {
      hide Next;
      DirectMoves(v, e);
    }
  }

  /** Round robin: while fewer than `k + 1` tasks are dispatched, the task at place `k` of the ready
  queue moves up one place with each, whatever else happens ... */
  lemma {:induction false} MovesUp(v: View, es: seq<Event>, k: nat, t: Task)
    requires Ok(v) && Legal(v, es) && At(v, READY, k, t)
    requires Run(v, es).switches <= v.switches + k
    ensures v.switches <= Run(v, es).switches
    ensures At(Run(v, es), READY, k - (Run(v, es).switches - v.switches), t)
    decreases |es|
  {
    hide Ok, Next, Allowed;
    if es != [] {
      var w := Next(v, es[0]);
      StepKeeps(v, es[0]);
      ReadyStep(v, es[0]);
      SwitchesGrow(w, es[1..]);
      MovesUp(w, es[1..], k - (w.switches - v.switches), t);
    }
  }

  lemma {:induction false} SwitchesGrow(v: View, es: seq<Event>)
    requires Ok(v) && Legal(v, es)
    ensures v.switches <= Run(v, es).switches
    decreases |es|
  {
    hide Ok, Next, Allowed;
    if es != [] {
      StepKeeps(v, es[0]);
      ReadyStep(v, es[0]);
      SwitchesGrow(Next(v, es[0]), es[1..]);
    }
  }

  /** ... and it is the task that the dispatch number `k + 1` runs. */
  lemma BoundedWaiting(v: View, es: seq<Event>, e: Event, k: nat, t: Task)
    requires Ok(v) && Legal(v, es) && At(v, READY, k, t) && Run(v, es).switches == v.switches + k
    requires Ok(Run(v, es)) && Allowed(Run(v, es), e) && Next(Run(v, es), e).switches > v.switches + k
    ensures Next(Run(v, es), e).switches == v.switches + k + 1 && Next(Run(v, es), e).current == t
  {
    hide Ok, Next, Allowed, Run, Legal;
    MovesUp(v, es, k, t);
    ReadyStep(Run(v, es), e);
  }

  // ----- sleeping -----

  ghost predicate Asleep(v: View, t: Task, time: nat) {
    WAIT in v.queues && t in v.queues[WAIT] && t in v.target && v.target[t] == time
  }

  /** `task_sleep_until` and `task_sleep_miliseconds` put the caller to sleep. */
  lemma FallsAsleep(v: View, e: Event)
    requires Ok(v) && Allowed(v, e) && (e.SleepUntil? || e.SleepFor?)
    ensures Asleep(Next(v, e), v.current, if e.SleepUntil? then e.time else v.ticks + e.delay)
  {
    hide Places;
    var b := Body(v, e);
    BodyKeeps(v, e);
    UnlockMoves(b);
    assert b.queues[WAIT][|v.queues[WAIT]|] == v.current;
    hide SchedModel.Unlock;
  }

  lemma BodySleeps(v: View, e: Event, t: Task, time: nat)
    requires Ok(v) && Allowed(v, e) && Locks(v, e) && Asleep(v, t, time)
    ensures var b := Body(v, e);
            if e.Wakeup? && time <= v.ticks then READY in b.queues && t in b.queues[READY] && !Asleep(b, t, time)
            else Asleep(b, t, time)
  {
    hide Places;
    AsleepState(v, t);
    if e.Wakeup? {
      SplitMembers(v.target, v.ticks, v.queues[WAIT], t);
    } else {
      hide WakeAll;
      BodyFrame(v, e, WAIT);
    }
  }

  lemma AsleepState(v: View, t: Task)
    requires Ok(v) && t in v.queues[WAIT]
    ensures t != 0 && t in v.state && t != v.current && v.state[t] == Waiting
  {
    var i: nat :| i < |v.queues[WAIT]| && v.queues[WAIT][i] == t;
    assert At(v, WAIT, i, t);
  }

  /** One step of a sleeper: only the first wakeup at or after its time ends the sleep, and it does so
  by making the task ready, or running if it is dispatched at once. */
  lemma SleepStep(v: View, e: Event, t: Task, time: nat)
    requires Ok(v) && Allowed(v, e) && Asleep(v, t, time)
    ensures var w := Next(v, e);
            if e.Wakeup? && time <= v.ticks
            then !Asleep(w, t, time) && READY in w.queues && (t in w.queues[READY] || t == w.current)
            else Asleep(w, t, time)
  {
    hide Ok, Body, SchedModel.Unlock, Allowed, Leaving;
    AsleepState(v, t);
    if Locks(v, e) {
      hide Locks;
      var b := Body(v, e);
      BodySleeps(v, e, t, time);
      BodyKeeps(v, e);
      UnlockMoves(b);
      if e.Wakeup? && time <= v.ticks {
        HeadOrTail(b.queues[READY], t);
      }
    } else {
      hide Next;
      DirectMoves(v, e);
      assert !(e.Wakeup? && time <= v.ticks) by { SleeperEnabled(v, t); }
    }
  }

  /** Nobody sleeps before `tasking_enable`. */
  lemma SleeperEnabled(v: View, t: Task)
    requires Ok(v) && t in v.queues[WAIT]
    ensures v.enabled
  {
    hide Places, SemsOk;
  }

  lemma HeadOrTail(ts: seq<Task>, t: Task)
    requires t in ts
    ensures t == ts[0] || t in ts[1..]
  {
  }

  /** The timer never interrupts `es` at or after `time` with a wakeup. */
  ghost predicate Early(v: View, es: seq<Event>, time: nat)
    requires Ok(v) && Legal(v, es)
    decreases |es|
  {
    es == [] ||
    (!(es[0].Wakeup? && time <= v.ticks) && (StepKeeps(v, es[0]); Early(Next(v, es[0]), es[1..], time)))
  }

  /** A sleeper is not made ready before its time ... */
  lemma {:induction false} SleepsUntilTime(v: View, es: seq<Event>, t: Task, time: nat)
    requires Ok(v) && Legal(v, es) && Asleep(v, t, time) && Early(v, es, time)
    ensures Asleep(Run(v, es), t, time)
    decreases |es|
  {
    hide Ok, Next, Allowed, Asleep;
    if es != [] {
      StepKeeps(v, es[0]);
      SleepStep(v, es[0], t, time);
      SleepsUntilTime(Next(v, es[0]), es[1..], t, time);
    }
  }

  /** ... and is at the first wakeup at or after it. */
  lemma WakesAtTime(v: View, es: seq<Event>, t: Task, time: nat)
    requires Ok(v) && Legal(v, es) && Asleep(v, t, time) && Early(v, es, time)
    requires Ok(Run(v, es)) && Allowed(Run(v, es), Wakeup) && time <= Run(v, es).ticks
    ensures Ok(Next(Run(v, es), Wakeup))
    ensures var w := Next(Run(v, es), Wakeup); t in w.state && (w.state[t] == Ready || w.state[t] == Running)
  {
    hide Next, Run, Legal, Early, Places;
    var u := Run(v, es);
    SleepsUntilTime(v, es, t, time);
    AsleepState(u, t);
    SleepStep(u, Wakeup, t, time);
    StepKeeps(u, Wakeup);
    KnownTask(Next(u, Wakeup), t);
    OnePlace(Next(u, Wakeup), t);
  }

  lemma KnownTask(v: View, t: Task)
    requires Ok(v) && t != 0 && (t in v.queues[READY] || t == v.current)
    ensures t in v.state
  {
    if t in v.queues[READY] {
      var i: nat :| i < |v.queues[READY]| && v.queues[READY][i] == t;
      assert At(v, READY, i, t);
    }
  }

  // ----- semaphores -----

  /** One step of semaphore `s`: what its count and its queue are afterwards. */
  ghost predicate SemStepped(v: View, e: Event, s: Queue, w: View)
    requires s in v.sems && s in v.queues
  {
    && s in w.sems && s in w.queues
    && (if e == Acquire(s) && v.sems[s] == 0 then w.queues[s] == v.queues[s] + [v.current] && w.sems[s] == 0
        else if e == Acquire(s) then w.queues[s] == v.queues[s] && w.sems[s] == v.sems[s] - 1
        else if e == Release(s) && v.queues[s] != [] then
          && w.queues[s] == v.queues[s][1..] && w.sems[s] == v.sems[s]
          && READY in w.queues && (v.queues[s][0] in w.queues[READY] || v.queues[s][0] == w.current)
        else if e == Release(s) then w.queues[s] == [] && w.sems[s] == v.sems[s] + 1
        else w.queues[s] == v.queues[s] && w.sems[s] == v.sems[s])
  }

  lemma SemBody(v: View, e: Event, s: Queue)
    requires Ok(v) && Allowed(v, e) && Locks(v, e) && s in v.sems && s in v.queues
    ensures var b := Body(v, e);
            && SemStepped(v, if e == Acquire(s) || e == Release(s) then e else Yield, s, b)
            && (e == Release(s) && v.queues[s] != [] ==> v.queues[s][0] in b.queues[READY])
  {
    hide Places, WakeAll;
    if e == Acquire(s) {
      hide UnblockFirst;
    } else if e == Release(s) {
      hide BlockOn;
    } else {
      BodyFrame(v, e, s);
      assert Touched(e) != s;
      hide Body;
    }
  }

  lemma SemQueue(v: View, s: Queue)
    requires Ok(v) && s in v.sems
    ensures s in v.queues && s != READY && s != WAIT && (v.sems[s] > 0 ==> v.queues[s] == [])
  {
    hide Places;
  }

  lemma SemStep(v: View, e: Event, s: Queue)
    requires Ok(v) && Allowed(v, e) && s in v.sems
    ensures s in v.queues && SemStepped(v, e, s, Next(v, e))
  {
    hide Ok, Leaving, Body, SchedModel.Unlock, Allowed;
    SemQueue(v, s);
    if Locks(v, e) {
      hide Locks;
      SemBody(v, e, s);
      BodyKeeps(v, e);
      UnlockMoves(Body(v, e));
      if e == Release(s) && v.queues[s] != [] {
        HeadOrTail(Body(v, e).queues[READY], v.queues[s][0]);
      }
    } else {
      hide Next;
      DirectMoves(v, e);
    }
  }

  function Count(es: seq<Event>, e: Event): nat {
    if es == [] then 0 else (if es[0] == e then 1 else 0) + Count(es[1..], e)
  }

  /** Over any run the count of a semaphore plus the acquires that got through is the initial count
  plus the releases: no signal is lost and none is invented. */
  lemma {:induction false} SemConserved(v: View, es: seq<Event>, s: Queue)
    requires Ok(v) && Legal(v, es) && s in v.sems
    ensures var w := Run(v, es);
            && s in v.queues && s in w.sems && s in w.queues
            && w.sems[s] + Count(es, Acquire(s)) + |v.queues[s]| == v.sems[s] + Count(es, Release(s)) + |w.queues[s]|
            && (w.sems[s] > 0 ==> w.queues[s] == [])
    decreases |es|
  {
    hide Ok, Next, Allowed;
    if es != [] {
      StepKeeps(v, es[0]);
      SemStep(v, es[0], s);
      SemConserved(Next(v, es[0]), es[1..], s);
    } else {
      SemQueue(v, s);
    }
  }

  /** Waiters are served in order: each release moves the task at place `k` of the queue up by one ... */
  lemma {:induction false} SemMovesUp(v: View, es: seq<Event>, s: Queue, k: nat, t: Task)
    requires Ok(v) && Legal(v, es) && s in v.sems && At(v, s, k, t) && Count(es, Release(s)) <= k
    ensures At(Run(v, es), s, k - Count(es, Release(s)), t)
    decreases |es|
  {
    hide Ok, Next, Allowed;
    if es != [] {
      StepKeeps(v, es[0]);
      SemStep(v, es[0], s);
      SemMovesUp(Next(v, es[0]), es[1..], s, if es[0] == Release(s) then k - 1 else k, t);
    }
  }

  /** ... and the release number `k + 1` makes it ready, or running if it is dispatched at once. */
  lemma SemFifo(v: View, es: seq<Event>, s: Queue, k: nat, t: Task)
    requires Ok(v) && Legal(v, es) && s in v.sems && At(v, s, k, t) && Count(es, Release(s)) == k
    requires Ok(Run(v, es)) && Allowed(Run(v, es), Release(s))
    ensures var w := Next(Run(v, es), Release(s)); READY in w.queues && (t in w.queues[READY] || t == w.current)
  {
    hide Ok, Next, Run, Legal;
    SemMovesUp(v, es, s, k, t);
    SemStep(Run(v, es), Release(s), s);
  }
}
