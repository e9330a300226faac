/** kernel/task.c on its own data: tasks and queues are records found by their address, kept as one map
per field, and each function updates them in place.  Every method is proved to take the step that
module `SchedRuns` describes; the `assert`s in the bodies are the source's, and none can fail. */
module Scheduler {
  import opened SchedModel
  import opened SchedRuns
  import opened TaskQueues

  class Kernel {
    // task_t
    var next: map<Task, Task>
    var state: map<Task, TaskState>
    var waitTarget: map<Task, nat>
    // task_queue_t
    var first: map<Queue, Task>
    var last: map<Queue, Task>
    // semaphore_t, by the address of its queue
    var count: map<Queue, nat>
    var spin: map<Queue, nat>

    var current: Task
    /** The task that `__schedule` keeps in a local variable while it idles. */
    var idle: Task
    var lockCount: nat
    var postponed: bool
    var enabled: bool
    var ticks: nat

    ghost var contents: map<Queue, seq<Task>>
    /** What `scheduler_wakeup` still has to look at. */
    ghost var loose: seq<Task>
    ghost var switches: nat

    /** The pointers are those of the queues in `contents`. */
    ghost predicate Linked(): (b: bool)
      reads `next, `first, `last, `contents, `loose
      ensures b ==> LOOSE !in contents
    {
      LOOSE !in contents && Wiring(first, last, next, contents[LOOSE := loose])
    }

    ghost predicate Unqueued(t: Task)
      reads `contents, `loose
    {
      Free(contents[LOOSE := loose], t)
    }

    ghost predicate Wired()
      reads this
    {
      Linked() && next.Keys == state.Keys
    }

    ghost function Abs(): View
      reads this
    {
      View(contents, state, waitTarget, current, idle, lockCount, postponed, enabled, ticks, count, switches)
    }

    /** The spin lock of every semaphore is free between any two steps. */
    ghost predicate Valid()
      reads this
    {
      Wired() && loose == [] && Ok(Abs()) && spin.Keys == count.Keys && (forall s | s in spin :: spin[s] == 0)
    }

    /** Boot: empty queues and semaphores at zero. */
    constructor (queues: set<Queue>, sems: set<Queue>)
      requires READY in queues && WAIT in queues && LOOSE !in queues && sems <= queues - {READY, WAIT}
      ensures Valid() && Abs() == Boot(queues, sems)
    {
      next, state, waitTarget := map[], map[], map[];
      first, last := map q | q in queues :: 0, map q | q in queues :: 0;
      count, spin := map s | s in sems :: 0, map s | s in sems :: 0;
      current, idle, lockCount, ticks, switches := 0, 0, 0, 0, 0;
      postponed, enabled := false, false;
      contents, loose := map q | q in queues :: [], [];
      new;
      BootOk(queues, sems);
    }

    // ----- task_queue_t -----

    /** `task_queue` */
    method TaskQueue(q: Queue, t: Task)
      requires Linked() && q in contents && t in next && t != 0 && Unqueued(t)
      modifies `next, `first, `last, `contents
      ensures Linked() && next.Keys == old(next.Keys) && Abs() == Enqueue(old(Abs()), q, t)
    {
      hide Linked, Unqueued;
      Append(q, t);
    }

    method Append(q: Queue, t: Task)
      requires Linked() && q in contents && t in next && t != 0 && Unqueued(t)
      modifies `next, `first, `last, `contents
      ensures Linked() && next.Keys == old(next.Keys) && contents == old(contents)[q := old(contents[q]) + [t]]
    {
      hide Free, Unique, Links;
      ghost var m := contents[LOOSE := loose];
      assert m[q] == contents[q];
      FreeNext(first, last, next, m, t);
      assert next[t] == 0;
      WiringPush(first, last, next, m, q, t);
      LastKnown(first, last, next, m, q);
      hide Wiring;
      if first[q] == 0 {
        assert last[q] == 0;
        first := first[q := t];
        last := last[q := t];
      } else {
        assert last[q] != 0;
        next := next[last[q] := t];
        last := last[q := t];
      }
      contents := contents[q := contents[q] + [t]];
      assert contents[LOOSE := loose] == Pushed(m, q, t);
    }

    /** `task_dequeue` */
    method TaskDequeue(q: Queue, ghost u: Task) returns (t: Task)
      requires Linked() && q in contents
      modifies `next, `first, `last, `contents
      ensures Linked() && next.Keys == old(next.Keys) && (old(Unqueued(u)) ==> Unqueued(u))
      ensures old(contents[q]) == [] ==> t == 0 && Abs() == old(Abs())
      ensures old(contents[q]) != [] ==>
                t == old(contents[q][0]) && t != 0 && t in next && Unqueued(t) && Abs() == Dequeue(old(Abs()), q)
    {
      hide Linked, Unqueued;
      t := TakeFirst(q, u);
    }

    method TakeFirst(q: Queue, ghost u: Task) returns (t: Task)
      requires Linked() && q in contents
      modifies `next, `first, `last, `contents
      ensures Linked() && next.Keys == old(next.Keys) && (old(Unqueued(u)) ==> Unqueued(u))
      ensures old(contents[q]) == [] ==> t == 0 && contents == old(contents)
      ensures old(contents[q]) != [] ==>
                && t == old(contents[q][0]) && t != 0 && t in next && Unqueued(t)
                && contents == old(contents)[q := old(contents[q])[1..]]
    {
      hide Free, Unique, Links;
      ghost var m := contents[LOOSE := loose];
      assert m[q] == contents[q];
      LastKnown(first, last, next, m, q);
      t := first[q];
      if t == 0 {
        return;
      }
      WiringPop(first, last, next, m, q);
      SecondKnown(next, m, q);
      PoppedFree(m, q);
      hide Wiring;
      first := first[q := next[t]];
      if first[q] == 0 {
        assert next[t] == 0;
        assert last[q] == t;
        last := last[q := 0];
      }
      next := next[t := 0];
      contents := contents[q := contents[q][1..]];
      assert contents[LOOSE := loose] == Popped(m, q);
    }

    // ----- the scheduler -----

    /** `__schedule`, as far as the moment another task runs or the processor idles. */
    method DoSchedule()
      requires Wired() && loose == [] && Core(Abs()) && enabled
      requires current != 0 && state[current] != Ready && lockCount == 0 && !postponed
      modifies `next, `first, `last, `contents, `state, `current, `idle, `lockCount, `switches
      ensures Wired() && Abs() == Dispatch(old(Abs()))
    {
      hide Linked, Unqueued, Core;
      CoreFacts(Abs());
      if state[current] == Running { CurrentUnqueued(); }
      var nextTask := TaskDequeue(READY, current);
      if nextTask == 0 {
        if state[current] == Running {
          nextTask := current;
        } else {
          Idle();
          return;
        }
      }
      if current != nextTask {
        RunTask(nextTask);
        return;
      }
      assert state[current] == Running;
    }

    /** Case 2 of `__schedule`, up to the idle loop. */
    method Idle()
      modifies `current, `idle, `lockCount
      ensures Abs() == old(Abs()).(current := 0, idle := old(current), lockCount := old(lockCount) + 1)
    {
      idle := current;
      current := 0;
      lockCount := lockCount + 1;
    }

    /** The second half of `__schedule`: `t` runs, and a preempted task goes back to the end of the ready
    queue. */
    method RunTask(t: Task)
      requires Wired() && READY in contents && current in state && t in state
      requires t != current && current != 0 && state[t] == Ready && (state[current] == Running ==> Unqueued(current))
      modifies `next, `first, `last, `contents, `state, `current, `switches
      ensures Wired() && current in state && state[current] == Running
      ensures Abs() == if old(state[current]) == Running
                       then SwitchTo(Enqueue(SetState(old(Abs()), old(current), Ready), READY, old(current)), t)
                       else SwitchTo(old(Abs()), t)
    {
      hide Linked, Unqueued;
      assert state[t] == Ready;
      if state[current] == Running {
        state := state[current := Ready];
        TaskQueue(READY, current);
      } else if state[current] == Terminated {
        // the terminating task is left where it is
        SwitchTask(t);
        return;
      }
      SwitchTask(t);
    }

    /** `switch_task`, and the assignments before it */
    method SwitchTask(t: Task)
      requires t in state
      modifies `state, `current, `switches
      ensures Abs() == SwitchTo(old(Abs()), t) && state.Keys == old(state.Keys)
    {
      state := state[t := Running];
      current := t;
      switches := switches + 1;
    }

    /** A running or terminated task is in no queue. */
    lemma CurrentUnqueued()
      requires Wired() && loose == [] && Core(Abs()) && current in state && !Queued(state[current])
      ensures Unqueued(current)
    {
      hide Linked, Free, InSome;
      RunningInNone(Abs(), current);
      NotQueued(Abs(), current);
    }

    /** The end of the idle loop in `__schedule`. */
    method ResumeIdle()
      requires Valid() && Allowed(Abs(), Event.Resume)
      modifies `next, `first, `last, `contents, `state, `current, `idle, `lockCount, `postponed, `switches
      ensures Valid() && Abs() == Next(old(Abs()), Event.Resume)
    {
      hide Linked, Ok, Next, Allowed, SwitchTo, Dequeue;
      ResumeFacts(Abs());
      LeaveIdle();
    }

    method LeaveIdle()
      requires Wired() && idle in state && state[idle] != Running && lockCount == 1 && READY in contents
      requires contents[READY] != [] && contents[READY][0] in state && state[contents[READY][0]] == Ready
      modifies `next, `first, `last, `contents, `state, `current, `idle, `lockCount, `postponed, `switches
      ensures Wired()
      ensures Abs() == SwitchTo(Dequeue(Idled(old(Abs())), READY), old(contents[READY][0]))
    {
      hide Linked, Unqueued;
      assert first[READY] != 0 by { ReadyFirst(); }
      StopIdling();
      assert lockCount == 0;
      var nextTask := TaskDequeue(READY, 0);
      assert nextTask != 0;
      if current == nextTask {
        assert state[current] == Ready;
      } else {
        assert state[nextTask] == Ready;
        assert state[current] != Running;
      }
      SwitchTask(nextTask);
    }

    method StopIdling()
      requires lockCount > 0
      modifies `current, `idle, `lockCount, `postponed
      ensures Abs() == Idled(old(Abs()))
    {
      if postponed {
        postponed := false;
      }
      current := idle;
      idle := 0;
      lockCount := lockCount - 1;
    }

    lemma ReadyFirst()
      requires Linked() && READY in contents && contents[READY] != []
      ensures READY in first && first[READY] != 0
    {
      LastKnown(first, last, next, contents[LOOSE := loose], READY);
    }

    /** `scheduler_lock` */
    method SchedulerLock()
      requires postponed ==> lockCount > 0
      modifies `lockCount
      ensures Abs() == Locked(old(Abs()))
    {
      if lockCount == 0 {
        assert !postponed;
      }
      lockCount := lockCount + 1;
    }

    /** `scheduler_unlock`: either it is not the last one, or a task that cannot go on gives way. */
    method SchedulerUnlock()
      requires Wired() && loose == [] && READY in contents && (lockCount > 1 || Leaving(Abs()))
      modifies `next, `first, `last, `contents, `state, `current, `idle, `lockCount, `postponed, `switches
      ensures Wired() && Unlockable(old(Abs())) && Abs() == SchedModel.Unlock(old(Abs()))
    {
      hide Linked, Dispatch, Core;
      if lockCount == 1 {
        CoreFacts(Abs());
      }
      assert lockCount != 0;
      lockCount := lockCount - 1;
      if lockCount == 0 {
        if enabled && postponed {
          postponed := false;
          CoreFrame(old(Abs()), Abs());
          DoSchedule();
        }
      }
    }

    /** `schedule` */
    method Schedule()
      requires lockCount != 0 && enabled
      modifies `postponed
      ensures Abs() == Postpone(old(Abs()))
    {
      assert lockCount != 0;
      assert enabled;
      postponed := true;
    }

    /** `__task_block` */
    method BlockTask(q: Queue, t: Task, reason: TaskState)
      requires Wired() && q in contents && t in next && t != 0 && Unqueued(t) && lockCount != 0
      modifies `next, `first, `last, `contents, `state
      ensures Wired() && Abs() == BlockOn(old(Abs()), q, t, reason)
    {
      hide Linked, Unqueued;
      state := state[t := reason];
      TaskQueue(q, t);
    }

    /** `__task_unblock` */
    method UnblockTask(t: Task)
      requires Wired() && READY in contents && t in next && t != 0 && Unqueued(t)
      requires lockCount != 0
      modifies `next, `first, `last, `contents, `state
      ensures Wired() && Abs() == BlockOn(old(Abs()), READY, t, Ready)
    {
      hide Linked, Unqueued;
      state := state[t := Ready];
      TaskQueue(READY, t);
    }

    // ----- the calls -----

    /** `scheduler_lock`, `scheduler_unlock` and `yield`, as called from outside */
    method LockScheduler()
      requires Valid()
      modifies `lockCount
      ensures Valid() && Abs() == Next(old(Abs()), Lock)
    {
      hide Linked, Ok, Body;
      OkFacts(Abs());
      StepKeeps(Abs(), Lock);
      SchedulerLock();
    }

    method UnlockScheduler()
      requires Valid() && Allowed(Abs(), Event.Unlock)
      modifies `next, `first, `last, `contents, `state, `current, `idle, `lockCount, `postponed, `switches
      ensures Valid() && Abs() == Next(old(Abs()), Event.Unlock)
    {
      hide Linked, Ok, Leaving, Next, Allowed;
      UnlockFacts(Abs());
      SchedulerUnlock();
    }

    /** `yield` */
    method Yield()
      requires Valid() && Allowed(Abs(), Event.Yield)
      modifies `next, `first, `last, `contents, `state, `current, `idle, `lockCount, `postponed, `switches
      ensures Valid() && Abs() == Next(old(Abs()), Event.Yield)
    {
      hide Linked, Ok, Leaving, Next, SchedModel.Unlock, Body, Allowed, Locks, Postpone, Locked;
      YieldCall(Abs());
      LockAndPostpone();
      SchedulerUnlock();
    }

    method LockAndPostpone()
      requires enabled && (postponed ==> lockCount > 0)
      modifies `lockCount, `postponed
      ensures Abs() == Postpone(Locked(old(Abs())))
    {
      SchedulerLock();
      Schedule();
    }

    lemma CallerUnqueued()
      requires Wired() && loose == [] && Ok(Abs()) && current != 0
      ensures current in state && state[current] == Running && Unqueued(current)
    {
      OkFacts(Abs());
      hide Ok, Linked, Unqueued;
      CoreOf(Abs());
      CurrentUnqueued();
    }

    /** `task_block` */
    method TaskBlock(q: Queue, reason: TaskState)
      requires Valid() && Allowed(Abs(), Block(q, reason))
      modifies `next, `first, `last, `contents, `state, `current, `idle, `lockCount, `postponed, `switches
      ensures Valid() && Abs() == Next(old(Abs()), Block(q, reason))
    {
      hide Linked, Ok, Leaving, Next, Unqueued, SchedModel.Unlock, Body, Allowed, Locks, Postpone, BlockOn, Locked;
      BlockCall(Abs(), q, reason);
      CallerUnqueued();
      BlockCurrent(q, reason);
      SchedulerUnlock();
    }

    /** The part of `task_block` before the last unlock. */
    method BlockCurrent(q: Queue, reason: TaskState)
      requires Wired() && q in contents && current in state && current != 0 && Unqueued(current)
      requires lockCount == 0 && enabled && !postponed
      modifies `next, `first, `last, `contents, `state, `lockCount, `postponed
      ensures Wired() && Abs() == Postpone(BlockOn(Locked(old(Abs())), q, old(current), reason))
    {
      hide Linked, Unqueued;
      SchedulerLock();
      assert lockCount == 1;
      BlockTask(q, current, reason);
      Schedule();
    }

    /** `task_unblock_next`, on any queue but the scheduler's own two. */
    method UnblockNext(q: Queue)
      requires Wired() && loose == [] && Ok(Abs()) && q in contents && q != READY && q != WAIT
      modifies `next, `first, `last, `contents, `state, `current, `idle, `lockCount, `postponed, `switches
      ensures Wired() && READY in old(contents)
      ensures Unlockable(UnblockFirst(Locked(old(Abs())), q))
      ensures Abs() == SchedModel.Unlock(UnblockFirst(Locked(old(Abs())), q))
    {
      hide Linked, Ok, Leaving, Unqueued, UnblockFirst, Locked, SchedModel.Unlock;
      OkFacts(Abs());
      UnblockBody(Abs(), q);
      if contents[q] != [] { QueueEnabled(Abs(), q); }
      LockAndUnblock(q);
      SchedulerUnlock();
    }

    method LockAndUnblock(q: Queue)
      requires Wired() && q in contents && READY in contents && (postponed ==> lockCount > 0)
      requires contents[q] != [] ==> enabled
      modifies `next, `first, `last, `contents, `state, `lockCount, `postponed
      ensures Wired() && READY in contents && READY in old(contents)
      ensures Abs() == UnblockFirst(Locked(old(Abs())), q)
    {
      hide Linked, Unqueued;
      SchedulerLock();
      var t := TaskDequeue(q, 0);
      if t != 0 {
        UnblockTask(t);
        Schedule();
      }
    }

    method TaskUnblockNext(q: Queue)
      requires Valid() && Allowed(Abs(), Event.UnblockNext(q))
      modifies `next, `first, `last, `contents, `state, `current, `idle, `lockCount, `postponed, `switches
      ensures Valid() && Abs() == Next(old(Abs()), Event.UnblockNext(q))
    {
      hide Linked, Ok, Leaving, Next, SchedModel.Unlock, UnblockFirst;
      CallFacts(Abs(), Event.UnblockNext(q));
      UnblockNext(q);
    }

    /** `task_sleep_until`: nothing, or the step `SleepUntil`. */
    method TaskSleepUntil(time: nat)
      requires Valid() && (ticks < time ==> Allowed(Abs(), SleepUntil(time)))
      modifies `next, `first, `last, `contents, `state, `current, `idle, `lockCount, `postponed, `switches, `waitTarget
      ensures Valid() && Abs() == if time <= ticks then old(Abs()) else Next(old(Abs()), SleepUntil(time))
    {
      hide Linked, Ok, Next, Allowed;
      if time <= ticks {
        return;
      }
      SleepCurrent(time);
    }

    method SleepCurrent(time: nat)
      requires Valid() && Allowed(Abs(), SleepUntil(time))
      modifies `next, `first, `last, `contents, `state, `current, `idle, `lockCount, `postponed, `switches, `waitTarget
      ensures Valid() && Abs() == Next(old(Abs()), SleepUntil(time))
    {
      hide Linked, Ok, Leaving, Unqueued, SchedModel.Unlock, Body, Locked, Postpone, Sleep, Next, Allowed, Locks;
      SleepCall(Abs(), time);
      CallerUnqueued();
      GoToSleep(time);
      SchedulerUnlock();
    }

    method GoToSleep(time: nat)
      requires Wired() && WAIT in contents && current in state && current != 0 && Unqueued(current)
      requires lockCount == 0 && enabled && !postponed && state[current] == Running
      modifies `next, `first, `last, `contents, `state, `waitTarget, `lockCount, `postponed
      ensures Wired() && Abs() == Postpone(Sleep(Locked(old(Abs())), time))
    {
      hide Linked, Unqueued;
      SchedulerLock();
      assert lockCount == 1;
      assert current != 0;
      assert state[current] == Running;
      state := state[current := Waiting];
      waitTarget := waitTarget[current := time];
      TaskQueue(WAIT, current);
      Schedule();
    }

    /** `task_sleep_miliseconds` */
    method TaskSleepMiliseconds(delay: nat)
      requires Valid() && Allowed(Abs(), SleepFor(delay))
      modifies `next, `first, `last, `contents, `state, `current, `idle, `lockCount, `postponed, `switches, `waitTarget
      ensures Valid() && Abs() == Next(old(Abs()), SleepFor(delay))
    {
      hide Linked, Ok, Leaving, Unqueued, SchedModel.Unlock, Body, Locked, Postpone, Sleep, Next, Allowed, Locks;
      SleepForCall(Abs(), delay);
      CallerUnqueued();
      StayAsleep(delay);
      SchedulerUnlock();
    }

    method StayAsleep(delay: nat)
      requires Wired() && WAIT in contents && current in state && current != 0 && Unqueued(current)
      requires lockCount == 0 && enabled && !postponed
      modifies `next, `first, `last, `contents, `state, `waitTarget, `lockCount, `postponed
      ensures Wired() && Abs() == Postpone(Sleep(Locked(old(Abs())), ticks + delay))
    {
      hide Linked, Unqueued;
      SchedulerLock();
      assert lockCount == 1;
      assert current != 0;
      waitTarget := waitTarget[current := ticks + delay];
      BlockTask(WAIT, current, Waiting);
      Schedule();
    }

    /** `task_add`.  The caller's record, with a `next_task` of NULL, becomes known to the scheduler. */
    method TaskAdd(t: Task)
      requires Valid() && Allowed(Abs(), Event.Add(t))
      modifies `next, `first, `last, `contents, `state, `current, `idle, `lockCount, `postponed, `switches, `waitTarget
      ensures Valid() && Abs() == Next(old(Abs()), Event.Add(t))
    {
      hide Linked, Ok, Leaving, Unqueued, SchedModel.Unlock, Body, Next, Allowed, Locks, Added;
      AddCall(Abs(), t);
      NewUnqueued(t);
      Introduce(t);
      SchedulerUnlock();
    }

    method Introduce(t: Task)
      requires Wired() && READY in contents && t != 0 && Unqueued(t) && (postponed ==> lockCount > 0)
      modifies `next, `first, `last, `contents, `state, `waitTarget, `lockCount
      ensures Wired() && Abs() == Added(old(Abs()), t)
    {
      hide Linked, Unqueued;
      AddTask(t);
      SchedulerLock();
      TaskQueue(READY, t);
    }

    method AddTask(t: Task)
      requires Linked() && Unqueued(t)
      modifies `next, `state, `waitTarget
      ensures Linked() && next == old(next)[t := 0]
      ensures Abs() == SetState(old(Abs()).(target := old(waitTarget)[t := 0]), t, Ready)
    {
      hide Linked, Unqueued;
      AddRecord(t);
      waitTarget := waitTarget[t := 0];
      state := state[t := Ready];
    }

    method AddRecord(t: Task)
      requires Linked() && Unqueued(t)
      modifies `next
      ensures Linked() && next == old(next)[t := 0]
    {
      WiringRecord(first, last, next, contents[LOOSE := loose], t);
      hide Wiring;
      next := next[t := 0];
    }

    lemma NewUnqueued(t: Task)
      requires Wired() && loose == [] && Ok(Abs()) && Spare(Abs(), t)
      ensures Unqueued(t)
    {
      Unknown(Abs(), t);
      hide Linked;
      NotQueued(Abs(), t);
    }

    /** `task_exit` */
    method TaskExit()
      requires Valid() && Allowed(Abs(), Exit)
      modifies `next, `first, `last, `contents, `state, `current, `idle, `lockCount, `postponed, `switches
      ensures Valid() && Abs() == Next(old(Abs()), Exit)
    {
      hide Linked, Ok, Core, Unqueued, Dispatch, Next, Allowed, Locks;
      ExitCall(Abs());
      Terminate();
      DoSchedule();
    }

    method Terminate()
      requires Wired() && current in state && lockCount == 1 && state[current] == Running
      modifies `state, `lockCount, `postponed
      ensures Wired() && Abs() == Exited(old(Abs()))
    {
      hide Linked;
      assert lockCount == 1;
      assert state[current] == Running;
      state := state[current := Terminated];
      lockCount := lockCount - 1;
      assert lockCount == 0;
      postponed := false;
    }

    /** `tasking_enable` */
    method TaskingEnable()
      requires Valid() && Allowed(Abs(), Enable)
      modifies `next, `first, `last, `contents, `state, `current, `enabled, `switches
      ensures Valid() && Abs() == Next(old(Abs()), Enable)
    {
      hide Linked, Ok, Unqueued, Next, Allowed, Locks, SwitchTo, Dequeue;
      EnableCall(Abs());
      RunFirst();
    }

    method RunFirst()
      requires Wired() && !enabled && current == 0 && lockCount == 0 && READY in contents && contents[READY] != []
      requires contents[READY][0] in state && state[contents[READY][0]] == Ready
      modifies `next, `first, `last, `contents, `state, `current, `enabled, `switches
      ensures Wired()
      ensures Abs() == SwitchTo(Dequeue(old(Abs()), READY), old(contents[READY][0])).(enabled := true)
    {
      hide Linked, Unqueued;
      assert !enabled;
      enabled := true;
      assert current == 0;
      var t := TaskDequeue(READY, 0);
      assert t != 0;
      assert state[t] == Ready;
      assert lockCount == 0;
      SwitchTask(t);
    }

    /** The timer interrupt counts a tick; then it calls `scheduler_wakeup`. */
    method TimerTick()
      requires Valid()
      modifies `ticks
      ensures Valid() && Abs() == Next(old(Abs()), Tick)
    {
      hide Linked, Ok, Body;
      StepKeeps(Abs(), Tick);
      ticks := ticks + 1;
    }

    // ----- semaphores (and arch/i686/atomic.c) -----

    /** `arch_atomic_swap` on a spin lock's word */
    method AtomicSwap(s: Queue, value: nat) returns (prev: nat)
      requires s in spin
      modifies `spin
      ensures prev == old(spin[s]) && spin == old(spin)[s := value]
    {
      prev := spin[s];
      spin := spin[s := value];
    }

    /** `spin_lock`: its panic is never reached. */
    method SpinLock(s: Queue)
      requires s in spin && spin[s] == 0 && (postponed ==> lockCount > 0)
      modifies `spin, `lockCount
      ensures spin == old(spin)[s := 1] && Abs() == Locked(old(Abs()))
    {
      SchedulerLock();
      var prev := AtomicSwap(s, 1);
      assert prev == 0;
    }

    /** `spin_unlock`: nor is this one. */
    method SpinUnlock(s: Queue)
      requires s in spin && spin[s] == 1
      requires Wired() && loose == [] && READY in contents && (lockCount > 1 || Leaving(Abs()))
      modifies `spin, `next, `first, `last, `contents, `state, `current, `idle, `lockCount, `postponed, `switches
      ensures spin == old(spin)[s := 0]
      ensures Wired() && Unlockable(old(Abs())) && Abs() == SchedModel.Unlock(old(Abs()))
    {
      hide Linked, Leaving, SchedModel.Unlock;
      var u := AtomicSwap(s, 0);
      assert u == 1;
      SchedulerUnlock();
    }

    /** `semaphore_acquire`, up to the moment its last unlock hands over the processor. */
    method SemaphoreAcquire(s: Queue)
      requires Valid() && Allowed(Abs(), Acquire(s))
      modifies `spin, `next, `first, `last, `contents, `state, `current, `idle, `lockCount, `postponed, `switches
      modifies `count
      ensures Valid() && Abs() == Next(old(Abs()), Acquire(s))
    {
      hide Linked, Ok, Leaving, Unqueued, SchedModel.Unlock, Body, Next, Allowed, Locks, Taken, Locked;
      AcquireCall(Abs(), s);
      if count[s] == 0 { CallerUnqueued(); }
      SpinLock(s);
      LockedFields(old(Abs()));
      assert Unqueued(current) || count[s] > 0;
      Take(s);
      assert lockCount == 1;
      SpinUnlock(s);
      SpinFree(old(spin), s);
    }

    method Take(s: Queue)
      requires Wired() && loose == [] && s in count && s in contents && READY in contents && lockCount == 1
      requires count[s] == 0 ==> enabled && current in state && current != 0 && Unqueued(current)
      modifies `next, `first, `last, `contents, `state, `current, `idle, `lockCount, `postponed, `switches, `count
      ensures Wired() && READY in contents && Abs() == Taken(old(Abs()), s) && count.Keys == old(count.Keys)
    {
      hide Linked, Unqueued, Leaving, Dispatch;
      if count[s] > 0 {
        count := count[s := count[s] - 1];
      } else {
        SchedulerLock();
        BlockTask(s, current, BlockedLock);
        Schedule();
        SchedulerUnlock();
      }
    }

    /** `semaphore_release` */
    method SemaphoreRelease(s: Queue)
      requires Valid() && Allowed(Abs(), Event.Release(s))
      modifies `spin, `next, `first, `last, `contents, `state, `current, `idle, `lockCount, `postponed, `switches
      modifies `count
      ensures Valid() && Abs() == Next(old(Abs()), Event.Release(s))
    {
      hide Linked, Ok, Leaving, Unqueued, SchedModel.Unlock, Body, Next, Allowed, Locks, Given, Locked;
      ReleaseCall(Abs(), s);
      SpinLock(s);
      LockedFields(old(Abs()));
      Give(s);
      SpinUnlock(s);
      SpinFree(old(spin), s);
    }

    method Give(s: Queue)
      requires Wired() && loose == [] && Ok(Abs()) && s in count && s in contents && s != READY && s != WAIT
      requires lockCount > 0
      modifies `next, `first, `last, `contents, `state, `current, `idle, `lockCount, `postponed, `switches, `count
      ensures READY in old(contents) && Wired() && READY in contents && count.Keys == old(count.Keys)
      ensures Abs() == Given(old(Abs()), s)
    {
      hide Linked, Ok, Unqueued, Leaving, SchedModel.Unlock, UnblockFirst, Locked;
      OkFacts(Abs());
      FirstKnown(s);
      if first[s] != 0 {
        GiveFacts(Abs(), s);
        SchedulerLock();
        UnblockNext(s);
        SchedulerUnlock();
      } else {
        count := count[s := count[s] + 1];
      }
    }

    lemma FirstKnown(q: Queue)
      requires Linked() && q in contents
      ensures q in first && (first[q] == 0 <==> contents[q] == [])
    {
      LastKnown(first, last, next, contents[LOOSE := loose], q);
    }

    // ----- the timer -----

    /** `scheduler_wakeup` */
    method SchedulerWakeup()
      requires Valid()
      modifies `next, `first, `last, `contents, `state, `current, `idle, `lockCount, `postponed, `switches, `waitTarget
      modifies `loose
      ensures Valid() && Abs() == Next(old(Abs()), Wakeup)
    {
      hide Linked, Ok, Leaving, Unqueued, SchedModel.Unlock, Body, Next, Allowed, Locks, WakeAll, Postpone, Locked;
      if !enabled {
        NoWakeup(Abs());
        return;
      }
      WakeCall(Abs());
      LockAndWake();
      SchedulerUnlock();
    }

    method LockAndWake()
      requires Wired() && loose == [] && Ok(Abs()) && enabled
      modifies `next, `first, `last, `contents, `state, `lockCount, `postponed, `waitTarget, `loose
      ensures Wired() && loose == [] && READY in contents && READY in old(contents) && WAIT in old(contents)
      ensures Abs() == Postpone(WakeAll(Locked(old(Abs()))))
    {
      hide Linked, Ok, Unqueued, Woken, Locked, Postpone;
      OkFacts(Abs());
      SleepersKnown(Abs());
      LockedFields(Abs());
      SchedulerLock();
      WakeSleepers();
      WokenShape(Locked(old(Abs())), old(contents[WAIT]));
      Schedule();
    }

    method WakeSleepers()
      requires Linked() && next.Keys == state.Keys && loose == [] && READY in contents && WAIT in contents
      requires lockCount != 0 && (forall t | t in contents[WAIT] :: t in state && t in waitTarget)
      requires NoDup(contents[WAIT])
      modifies `next, `first, `last, `contents, `state, `waitTarget, `loose
      ensures Linked() && next.Keys == state.Keys && loose == []
      ensures READY in old(contents) && WAIT in old(contents) && Abs() == WakeAll(old(Abs()))
    {
      hide Linked, Unqueued, Woken, BlockOn, Enqueue;
      ghost var v, ts := Abs(), contents[WAIT];
      var task := CutSleepers();
      NoneWoken(v);
      assert ts[..0] == [];
      ghost var k := 0;
      while task != 0
        invariant Linked() && next.Keys == state.Keys == v.state.Keys && k <= |ts| && loose == ts[k..]
        invariant task == if loose == [] then 0 else loose[0]
        invariant Abs() == Woken(v, ts[..k])
        decreases |ts| - k
      {
        WokenShape(v, ts[..k]);
        NextSleeper(ts, k);
        WokenStep(v, ts[..k], ts[k]);
        task := WakeOne(task);
        k := k + 1;
      }
      assert loose == [] by { if loose != [] { LooseHead(); } }
      assert ts[..k] == ts;
    }

    lemma LooseHead()
      requires Linked() && loose != []
      ensures loose[0] != 0
    {
      assert Links(next, contents[LOOSE := loose][LOOSE]);
    }

    /** The list of sleepers is cut off the wait queue. */
    method CutSleepers() returns (task: Task)
      requires Linked() && loose == [] && WAIT in contents
      modifies `first, `last, `contents, `loose
      ensures Linked() && contents == old(contents)[WAIT := []] && loose == old(contents[WAIT])
      ensures task == if loose == [] then 0 else loose[0]
    {
      ghost var m, ts := contents[LOOSE := loose], contents[WAIT];
      WiringCut(first, last, next, m, WAIT);
      FirstKnown(WAIT);
      FirstIs(WAIT);
      hide Wiring;
      task := first[WAIT];
      first := first[WAIT := 0];
      last := last[WAIT := 0];
      contents, loose := contents[WAIT := []], ts;
      assert contents[LOOSE := loose] == m[WAIT := []][LOOSE := ts];
    }

    lemma FirstIs(q: Queue)
      requires Linked() && q in contents
      ensures q in first && q in last && (contents[q] != [] ==> first[q] == contents[q][0])
    {
      LastKnown(first, last, next, contents[LOOSE := loose], q);
    }

    /** One round of the loop in `scheduler_wakeup`. */
    method WakeOne(task: Task) returns (nextTask: Task)
      requires Linked() && next.Keys == state.Keys && loose != [] && task == loose[0] && task in waitTarget
      requires READY in contents && WAIT in contents && lockCount != 0
      modifies `next, `first, `last, `contents, `loose, `state, `waitTarget
      ensures Linked() && next.Keys == state.Keys == old(state.Keys) && loose == old(loose[1..])
      ensures nextTask == if loose == [] then 0 else loose[0]
      ensures Abs() == if old(waitTarget[task]) <= ticks
                       then BlockOn(old(Abs()).(target := old(waitTarget)[task := 0]), READY, task, Ready)
                       else Enqueue(old(Abs()), WAIT, task)
    {
      hide Linked, Unqueued;
      nextTask := Detach(task);
      if waitTarget[task] <= ticks {
        waitTarget := waitTarget[task := 0];
        UnblockTask(task);
      } else {
        TaskQueue(WAIT, task);
      }
    }

    method Detach(task: Task) returns (nextTask: Task)
      requires Linked() && loose != [] && task == loose[0]
      modifies `next, `loose
      ensures Linked() && next.Keys == old(next.Keys) && loose == old(loose[1..])
      ensures task in next && task != 0 && Unqueued(task)
      ensures nextTask == if loose == [] then 0 else loose[0]
    {
      ghost var m := contents[LOOSE := loose];
      WiringPop(first, last, next, m, LOOSE);
      hide Wiring, Free;
      nextTask := next[task];
      next := next[task := 0];
      loose := loose[1..];
      assert contents[LOOSE := loose] == Popped(m, LOOSE);
    }
  }

  lemma FreeNext(first: map<Queue, Task>, last: map<Queue, Task>, next: map<Task, Task>,
                 m: map<Queue, seq<Task>>, t: Task)
    requires Wiring(first, last, next, m) && Free(m, t) && t in next
    ensures next[t] == 0
  {
  }

  lemma LastKnown(first: map<Queue, Task>, last: map<Queue, Task>, next: map<Task, Task>,
                  m: map<Queue, seq<Task>>, q: Queue)
    requires Wiring(first, last, next, m) && q in m && q != LOOSE
    ensures q in first && q in last && (first[q] == 0 <==> m[q] == []) && (last[q] == 0 <==> m[q] == [])
    ensures m[q] != [] ==> first[q] == m[q][0] && last[q] in next && last[q] == m[q][|m[q]| - 1]
  {
    assert Heads(first[q], last[q], m[q]) && Links(next, m[q]);
    if m[q] != [] { assert m[q][0] != 0 && m[q][|m[q]| - 1] != 0; }
  }

  lemma SecondKnown(next: map<Task, Task>, m: map<Queue, seq<Task>>, q: Queue)
    requires q in m && Links(next, m[q])
    ensures |m[q]| > 1 ==> m[q][1] != 0
  {
  }

  lemma CoreFacts(v: View)
    requires Core(v)
    ensures READY in v.queues && WAIT in v.queues && 0 !in v.state && v.state.Keys == v.target.Keys
    ensures v.current != 0 ==> v.current in v.state && v.idle == 0
    ensures v.idle != 0 ==> v.idle in v.state
    ensures v.enabled ==> v.current != 0 || v.idle != 0
    ensures v.queues[READY] != [] ==> v.queues[READY][0] in v.state && v.state[v.queues[READY][0]] == Ready
  {
    if v.queues[READY] != [] { assert At(v, READY, 0, v.queues[READY][0]); }
  }

  lemma CoreOf(v: View)
    requires Ok(v)
    ensures Core(v)
  {
  }

  /** A call under the lock: what it must have done when it unlocks. */
  lemma CallFacts(v: View, e: Event)
    requires Ok(v) && Allowed(v, e) && Locks(v, e)
    ensures Leaving(Body(v, e)) && Ok(Next(v, e))
    ensures Unlockable(Body(v, e)) && Next(v, e) == SchedModel.Unlock(Body(v, e))
  {
    hide Ok, Leaving, Body, SchedModel.Unlock;
    BodyKeeps(v, e);
    StepKeeps(v, e);
    BodyEntered(v, e);
  }

  lemma YieldCall(v: View)
    requires Ok(v) && Allowed(v, Event.Yield)
    ensures v.enabled && (v.postponed ==> v.lockCount > 0)
    ensures READY in v.queues && WAIT in v.queues && Ok(Next(v, Event.Yield))
    ensures var b := Postpone(Locked(v));
            Leaving(b) && Unlockable(b) && READY in b.queues && Next(v, Event.Yield) == SchedModel.Unlock(b)
  {
    hide Ok, Leaving, SchedModel.Unlock, Next;
    OkFacts(v);
    CallFacts(v, Event.Yield);
  }

  lemma BlockCall(v: View, q: Queue, reason: TaskState)
    requires Ok(v) && Allowed(v, Block(q, reason))
    ensures CanBlock(v) && !v.postponed && v.current != 0 && q in v.queues
    ensures READY in v.queues && WAIT in v.queues && Ok(Next(v, Block(q, reason)))
    ensures var b := Postpone(BlockOn(Locked(v), q, v.current, reason));
            Leaving(b) && Unlockable(b) && READY in b.queues && Next(v, Block(q, reason)) == SchedModel.Unlock(b)
  {
    hide Ok, Leaving, SchedModel.Unlock, Next;
    OkFacts(v);
    CallFacts(v, Block(q, reason));
  }

  lemma SleepCall(v: View, time: nat)
    requires Ok(v) && Allowed(v, SleepUntil(time))
    ensures CanBlock(v) && !v.postponed && v.current != 0
    ensures READY in v.queues && WAIT in v.queues && Ok(Next(v, SleepUntil(time)))
    ensures var b := Postpone(Sleep(Locked(v), time));
            Leaving(b) && Unlockable(b) && READY in b.queues && Next(v, SleepUntil(time)) == SchedModel.Unlock(b)
  {
    hide Ok, Leaving, SchedModel.Unlock, Next;
    OkFacts(v);
    CallFacts(v, SleepUntil(time));
  }

  lemma SleepForCall(v: View, delay: nat)
    requires Ok(v) && Allowed(v, SleepFor(delay))
    ensures CanBlock(v) && !v.postponed && v.current != 0
    ensures READY in v.queues && WAIT in v.queues && Ok(Next(v, SleepFor(delay)))
    ensures var b := Postpone(Sleep(Locked(v), v.ticks + delay));
            Leaving(b) && Unlockable(b) && READY in b.queues && Next(v, SleepFor(delay)) == SchedModel.Unlock(b)
  {
    hide Ok, Leaving, SchedModel.Unlock, Next;
    OkFacts(v);
    CallFacts(v, SleepFor(delay));
  }

  function Added(v: View, t: Task): View
    requires READY in v.queues
  {
    Enqueue(SetState(Locked(v).(target := v.target[t := 0]), t, Ready), READY, t)
  }

  lemma AddCall(v: View, t: Task)
    requires Ok(v) && Allowed(v, Event.Add(t))
    ensures READY in v.queues && Ok(Next(v, Event.Add(t))) && (v.postponed ==> v.lockCount > 0)
    ensures t != 0 && Spare(v, t)
    ensures var b := Added(v, t);
            Leaving(b) && Unlockable(b) && READY in b.queues && Next(v, Event.Add(t)) == SchedModel.Unlock(b)
  {
    hide Ok, Leaving, SchedModel.Unlock, Next;
    OkFacts(v);
    CallFacts(v, Event.Add(t));
  }

  lemma Unknown(v: View, t: Task)
    requires Ok(v) && Spare(v, t)
    ensures !InSome(v, t)
  {
    SpareInNone(v, t);
  }

  lemma ExitCall(v: View)
    requires Ok(v) && Allowed(v, Exit)
    ensures Core(Exited(v)) && Ok(Next(v, Exit)) && READY in v.queues
    ensures v.enabled && v.current in v.state && v.current != 0 && v.state[v.current] == Running && v.lockCount == 1
    ensures Next(v, Exit) == Dispatch(Exited(v))
  {
    hide Ok, Core, Dispatch, Body, SchedModel.Unlock;
    ExitCore(v);
    ExitShape(v);
    StepKeeps(v, Exit);
  }

  lemma EnableCall(v: View)
    requires Ok(v) && Allowed(v, Enable)
    ensures READY in v.queues && v.queues[READY] != [] && Ok(Next(v, Enable))
    ensures v.queues[READY][0] in v.state && v.state[v.queues[READY][0]] == Ready
    ensures !v.enabled && v.current == 0 && v.lockCount == 0
    ensures Next(v, Enable) == SwitchTo(Dequeue(v, READY), v.queues[READY][0]).(enabled := true)
  {
    OkFacts(v);
    StepKeeps(v, Enable);
    hide Places, SemsOk, Body, SchedModel.Unlock;
  }

  /** What `semaphore_acquire` does under the spin lock. */
  function Taken(v: View, s: Queue): View
    requires s in v.sems && s in v.queues
  {
    if v.sems[s] > 0 then v.(sems := v.sems[s := v.sems[s] - 1])
    else Postpone(BlockOn(v, s, v.current, BlockedLock))
  }

  lemma LockedFields(v: View)
    ensures var l := Locked(v);
            && l.queues == v.queues && l.sems == v.sems && l.state == v.state && l.current == v.current
            && l.enabled == v.enabled && l.lockCount == v.lockCount + 1 && l.postponed == v.postponed
  {
  }

  lemma SpinFree(spin: map<Queue, nat>, s: Queue)
    requires s in spin && spin[s] == 0
    ensures spin[s := 1][s := 0] == spin
  {
  }

  lemma AcquireCall(v: View, s: Queue)
    requires Ok(v) && Allowed(v, Acquire(s))
    ensures READY in v.queues && Ok(Next(v, Acquire(s))) && !v.postponed && v.lockCount == 0
    ensures s in v.sems && s in v.queues && (v.sems[s] == 0 ==> v.enabled && v.current != 0)
    ensures var b := Taken(Locked(v), s);
            Leaving(b) && Unlockable(b) && b.lockCount == 1 && Next(v, Acquire(s)) == SchedModel.Unlock(b)
  {
    hide Ok, Leaving, SchedModel.Unlock, Next;
    OkFacts(v);
    CallFacts(v, Acquire(s));
  }

  /** What `semaphore_release` does under the spin lock. */
  function Given(v: View, s: Queue): View
    requires s in v.sems && s in v.queues && READY in v.queues
  {
    if v.queues[s] != [] then UnblockFirst(v, s) else v.(sems := v.sems[s := v.sems[s] + 1])
  }

  lemma ReleaseCall(v: View, s: Queue)
    requires Ok(v) && Allowed(v, Event.Release(s))
    ensures READY in v.queues && Ok(Next(v, Event.Release(s))) && (v.postponed ==> v.lockCount > 0) && Ok(Locked(v))
    ensures s in v.sems && s in v.queues && s != READY && s != WAIT
    ensures var b := Given(Locked(v), s);
            Leaving(b) && Unlockable(b) && Next(v, Event.Release(s)) == SchedModel.Unlock(b)
  {
    hide Places, Leaving, SchedModel.Unlock, Next;
    assert s != READY && s != WAIT;
    hide Ok;
    OkFacts(v);
    CallFacts(v, Event.Release(s));
    LockedOk(v);
  }

  lemma LockedOk(v: View)
    requires Ok(v)
    ensures Ok(Locked(v))
  {
    hide Ok, SchedModel.Unlock, Body;
    StepKeeps(v, Lock);
  }

  /** An unblocking inside a locked section does not dispatch. */
  lemma GiveFacts(v: View, s: Queue)
    requires Ok(v) && v.lockCount > 0 && s in v.queues && s != READY && s != WAIT && READY in v.queues
    ensures var l := Locked(v);
            && Ok(l) && Leaving(UnblockFirst(l, s)) && Unlockable(UnblockFirst(Locked(l), s))
            && SchedModel.Unlock(UnblockFirst(Locked(l), s)) == UnblockFirst(l, s) && Unlockable(UnblockFirst(l, s))
            && SchedModel.Unlock(UnblockFirst(l, s)) == UnblockFirst(v, s) && READY in UnblockFirst(v, s).queues
  {
    hide Ok, Leaving, SchedModel.Unlock, UnblockFirst;
    LockedOk(v);
    UnblockBody(v, s);
    NestedUnlock(v, s);
    NestedUnlock(Locked(v), s);
  }

  lemma NestedUnlock(v: View, s: Queue)
    requires v.lockCount > 0 && s in v.queues && READY in v.queues
    ensures var b := UnblockFirst(Locked(v), s);
            Unlockable(b) && SchedModel.Unlock(b) == UnblockFirst(v, s) && READY in UnblockFirst(v, s).queues
  {
    hide Dispatch;
  }

  lemma NoWakeup(v: View)
    requires Shaped(v) && !v.enabled
    ensures Next(v, Wakeup) == v
  {
    hide Body, SchedModel.Unlock;
  }

  lemma WakeCall(v: View)
    requires Ok(v) && v.enabled
    ensures READY in v.queues && WAIT in v.queues && Ok(Next(v, Wakeup))
    ensures var b := Postpone(WakeAll(Locked(v)));
            Leaving(b) && Unlockable(b) && Next(v, Wakeup) == SchedModel.Unlock(b)
  {
    hide Ok, Leaving, SchedModel.Unlock, Next, Woken;
    OkFacts(v);
    CallFacts(v, Wakeup);
  }

  /** The sleepers are known tasks, each there once. */
  lemma SleepersKnown(v: View)
    requires Ok(v)
    ensures (forall t | t in v.queues[WAIT] :: t in v.state && t in v.target) && NoDup(v.queues[WAIT])
  {
    OkFacts(v);
    var ts := v.queues[WAIT];
    forall t | t in ts
      ensures t in v.state
    {
      var k: nat :| k < |ts| && ts[k] == t;
      assert At(v, WAIT, k, t);
    }
    NoDupQueue(v, WAIT);
  }

  lemma NextSleeper(ts: seq<Task>, k: nat)
    requires NoDup(ts) && k < |ts|
    ensures ts[k] !in ts[..k] && ts[..k + 1] == ts[..k] + [ts[k]] && ts[k..][1..] == ts[k + 1..]
  {
  }

  lemma WokenShape(v: View, ts: seq<Task>)
    requires READY in v.queues && WAIT in v.queues
    ensures var w := Woken(v, ts);
            && READY in w.queues && WAIT in w.queues && w.lockCount == v.lockCount && w.ticks == v.ticks
            && w.enabled == v.enabled && w.state.Keys == v.state.Keys && w.target.Keys == v.target.Keys
  {
    hide Expired, Sleeping;
  }

  lemma NoneWoken(v: View)
    requires READY in v.queues && WAIT in v.queues
    ensures v.(queues := v.queues[WAIT := []]) == Woken(v, [])
  {
    assert v.queues[READY] + [] == v.queues[READY];
    assert Woken(v, []).queues == v.queues[WAIT := []];
    assert Woken(v, []).state == v.state;
    assert Woken(v, []).target == v.target;
  }

  lemma UnlockFacts(v: View)
    requires Ok(v) && Allowed(v, Event.Unlock)
    ensures Leaving(v) && Ok(Next(v, Event.Unlock)) && Next(v, Event.Unlock) == SchedModel.Unlock(v)
  {
    hide Places, SchedModel.Unlock;
    StepKeeps(v, Event.Unlock);
  }

  lemma QueueEnabled(v: View, q: Queue)
    requires Ok(v) && q in v.queues && q != READY && v.queues[q] != []
    ensures v.enabled
  {
    hide Places;
  }

  function Idled(v: View): View
    requires v.lockCount > 0
  {
    v.(current := v.idle, idle := 0, lockCount := v.lockCount - 1, postponed := false)
  }

  lemma ResumeFacts(v: View)
    requires Ok(v) && Allowed(v, Event.Resume)
    ensures Ok(Next(v, Event.Resume)) && READY in v.queues && v.queues[READY] != [] && v.lockCount == 1
    ensures v.idle in v.state && v.state[v.idle] != Running
    ensures v.queues[READY][0] in v.state && v.state[v.queues[READY][0]] == Ready
    ensures Next(v, Event.Resume) == SwitchTo(Dequeue(Idled(v), READY), v.queues[READY][0])
  {
    OkFacts(v);
    StepKeeps(v, Event.Resume);
    hide Ok, Locks, Body, SchedModel.Unlock;
  }

  lemma OkFacts(v: View)
    requires Ok(v)
    ensures READY in v.queues && WAIT in v.queues && 0 !in v.state && v.state.Keys == v.target.Keys
    ensures v.current != 0 ==> v.current in v.state && v.state[v.current] == Running
    ensures v.idle != 0 ==> v.idle in v.state && v.state[v.idle] != Running && v.current == 0
    ensures v.queues[READY] != [] ==> v.queues[READY][0] in v.state && v.state[v.queues[READY][0]] == Ready
    ensures v.postponed ==> v.lockCount > 0
    ensures v.enabled && v.lockCount == 0 ==> v.current != 0
  {
    CoreFacts(v);
    if v.idle != 0 { assert v.state[v.idle] == Running ==> v.idle == v.current; }
  }

  /** The lock count and the flags play no part in `Core` once tasks run. */
  lemma CoreFrame(v: View, w: View)
    requires Core(v) && v.enabled && w == v.(lockCount := w.lockCount, postponed := w.postponed)
    ensures Core(w)
  {
    PlacesFrame(v, w);
    hide Places;
  }

  lemma NotQueued(v: View, t: Task)
    requires !InSome(v, t) && LOOSE !in v.queues
    ensures Free(v.queues[LOOSE := []], t)
  {
    var m := v.queues[LOOSE := []];
    forall q: Queue, i: nat
      ensures !Cell(m, q, i, t)
    {
      assert !At(v, q, i, t);
    }
  }

  lemma PoppedFree(m: map<Queue, seq<Task>>, q: Queue)
    requires q in m && m[q] != []
    ensures forall t :: Free(m, t) ==> Free(Popped(m, q), t)
  {
    forall t | Free(m, t)
      ensures Free(Popped(m, q), t)
    {
      forall r: Queue, i: nat
        ensures !Cell(Popped(m, q), r, i, t)
      {
        PoppedCells(m, q, r, i, t);
      }
    }
  }
}
