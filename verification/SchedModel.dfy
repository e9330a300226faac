/** The scheduler (kernel/task.c) as a state machine: which task is where, and what every call and
interrupt does to that.  Module `Scheduler` implements the same steps on the intrusive queues. */
module SchedModel {

  /** Tasks and queues are named by their addresses; 0 is NULL. */
  type Task = int
  type Queue = int

  /** `&ready_queue` and `&wait_queue`; every other queue belongs to a lock or a process. */
  const READY: Queue := 1
  const WAIT: Queue := 2

  datatype TaskState = Ready | Blocked | Running | Terminated | Waiting | BlockedLock

  datatype View = View(
    queues: map<Queue, seq<Task>>,
    state: map<Task, TaskState>,
    target: map<Task, nat>,
    current: Task,
    /** The task that found nothing to switch to; non-NULL only while idling. */
    idle: Task,
    lockCount: nat,
    postponed: bool,
    enabled: bool,
    ticks: nat,
    /** The counts of the semaphores, by their queue. */
    sems: map<Queue, nat>,
    /** How many times a task was taken from the ready queue to run. */
    switches: nat)

  // ----- the small steps -----

  function Enqueue(v: View, q: Queue, t: Task): View
    requires q in v.queues
  {
    v.(queues := v.queues[q := v.queues[q] + [t]])
  }

  function Dequeue(v: View, q: Queue): View
    requires q in v.queues && v.queues[q] != []
  {
    v.(queues := v.queues[q := v.queues[q][1..]])
  }

  function SetState(v: View, t: Task, s: TaskState): View {
    v.(state := v.state[t := s])
  }

  /** `__task_block` */
  function BlockOn(v: View, q: Queue, t: Task, s: TaskState): View
    requires q in v.queues
  {
    Enqueue(SetState(v, t, s), q, t)
  }

  /** `task_dequeue` and `__task_unblock` of the first task, if any, followed by `schedule`. */
  function UnblockFirst(v: View, q: Queue): View
    requires q in v.queues && READY in v.queues
  {
    if v.queues[q] == [] then v
    else
      var t := v.queues[q][0];
      Enqueue(SetState(Dequeue(v, q), t, Ready), READY, t).(postponed := true)
  }

  /** `__schedule`, up to the point where it idles if there is nothing to run. */
  function Dispatch(v: View): View
    requires READY in v.queues && v.current in v.state
  {
    if v.queues[READY] == [] then
      if v.state[v.current] == Running then v
      else v.(current := 0, idle := v.current, lockCount := v.lockCount + 1)
    else if v.state[v.current] == Running then Preempted(v)
    else SwitchTo(Dequeue(v, READY), v.queues[READY][0])
  }

  /** The first ready task runs, and the current one goes to the end of the queue. */
  function Preempted(v: View): View
    requires READY in v.queues && v.queues[READY] != []
  {
    var ready := v.queues[READY];
    v.(queues := v.queues[READY := ready[1..] + [v.current]],
       state := v.state[v.current := Ready][ready[0] := Running],
       current := ready[0], switches := v.switches + 1)
  }

  function SwitchTo(v: View, t: Task): View {
    SetState(v, t, Running).(current := t, switches := v.switches + 1)
  }

  predicate Unlockable(v: View) {
    v.lockCount > 0 && READY in v.queues && (v.enabled ==> v.current in v.state || v.lockCount > 1)
  }

  /** `scheduler_unlock` */
  function Unlock(v: View): View
    requires Unlockable(v)
  {
    var u := v.(lockCount := v.lockCount - 1);
    if u.lockCount == 0 && u.enabled && u.postponed then Dispatch(u.(postponed := false)) else u
  }

  /** The end of the idle loop in `__schedule`: some task became ready. */
  function Resume(v: View): View
    requires READY in v.queues && v.queues[READY] != [] && v.lockCount > 0
  {
    SwitchTo(Dequeue(v, READY), v.queues[READY][0]).(idle := 0, lockCount := v.lockCount - 1, postponed := false)
  }

  /** The tasks of `ts` whose time has come, in order, and the others. */
  function Expired(target: map<Task, nat>, now: nat, ts: seq<Task>): (r: seq<Task>)
    ensures forall t <- r :: t in ts
  {
    if ts == [] then []
    else
      var t := ts[|ts| - 1];
      Expired(target, now, ts[..|ts| - 1]) + if t in target && target[t] <= now then [t] else []
  }

  function Sleeping(target: map<Task, nat>, now: nat, ts: seq<Task>): (r: seq<Task>)
    ensures forall t <- r :: t in ts
  {
    if ts == [] then []
    else
      var t := ts[|ts| - 1];
      Sleeping(target, now, ts[..|ts| - 1]) + if t in target && target[t] <= now then [] else [t]
  }

  /** The loop of `scheduler_wakeup`, when it has looked at the sleepers `ts`: the expired ones are
  ready, the others sleep on. */
  function Woken(v: View, ts: seq<Task>): View
    requires READY in v.queues && WAIT in v.queues
  {
    var out := Expired(v.target, v.ticks, ts);
    v.(queues := v.queues[WAIT := Sleeping(v.target, v.ticks, ts)][READY := v.queues[READY] + out],
       state := map t | t in v.state :: if t in out then Ready else v.state[t],
       target := map t | t in v.target :: if t in out then 0 else v.target[t])
  }

  function WakeAll(v: View): View
    requires READY in v.queues && WAIT in v.queues
  {
    Woken(v, v.queues[WAIT])
  }

  // ----- where tasks are -----

  /** Task `t` is at place `i` of queue `q`. */
  predicate At(v: View, q: Queue, i: nat, t: Task) {
    q in v.queues && i < |v.queues[q]| && v.queues[q][i] == t
  }

  ghost predicate InSome(v: View, t: Task) {
    exists q: Queue, i: nat :: At(v, q, i, t)
  }

  /** The states that go with membership in a queue. */
  predicate Fits(s: TaskState, q: Queue) {
    if q == READY then s == Ready
    else if q == WAIT then s == Waiting
    else s == Blocked || s == BlockedLock
  }

  predicate Queued(s: TaskState) {
    s != Running && s != Terminated
  }

  /** Every task is in exactly one place, the one that matches its state. */
  ghost predicate Places(v: View) {
    && READY in v.queues && WAIT in v.queues && 0 !in v.state
    && (forall q: Queue, i: nat, t: Task | At(v, q, i, t) :: t in v.state && Fits(v.state[t], q))
    && (forall q: Queue, i: nat, r: Queue, j: nat, t: Task | At(v, q, i, t) && At(v, r, j, t) :: q == r && i == j)
    && (forall t | t in v.state && Queued(v.state[t]) :: InSome(v, t))
    && (forall t | t in v.state && v.state[t] == Running :: t == v.current)
  }

  /** A task that is in no queue goes to the end of one. */
  lemma PushKeeps(v: View, q: Queue, t: Task, s: TaskState)
    requires Places(v) && q in v.queues && t != 0 && Fits(s, q) && !InSome(v, t)
    ensures Places(BlockOn(v, q, t, s))
  {
    var w := BlockOn(v, q, t, s);
    PushAt(v, q, t, s);
    assert At(w, q, |v.queues[q]|, t);
    forall u | u in w.state && Queued(w.state[u])
      ensures InSome(w, u)
    {
      if u != t {
        var r: Queue, i: nat :| At(v, r, i, u);
        assert At(w, r, i, u);
      }
    }
  }

  lemma PushAt(v: View, q: Queue, t: Task, s: TaskState)
    requires q in v.queues
    ensures forall r: Queue, i: nat, u: Task ::
              At(BlockOn(v, q, t, s), r, i, u) <==> At(v, r, i, u) || (r == q && i == |v.queues[q]| && u == t)
  {
  }

  /** Where a task is after the head of `q` left, and the other way round. */
  lemma PopAt(v: View, q: Queue, r: Queue, i: nat, u: Task)
    requires q in v.queues && v.queues[q] != []
    ensures At(Dequeue(v, q), r, i, u) <==> At(v, r, if r == q then i + 1 else i, u)
  {
  }

  /** Nothing but the current task can be running. */
  ghost predicate NoneRunning(v: View) {
    forall t | t in v.state :: v.state[t] != Running
  }

  /** The first ready task leaves its queue and runs, when no task was running. */
  lemma RunKeeps(v: View)
    requires Places(v) && NoneRunning(v) && v.queues[READY] != []
    ensures var t := v.queues[READY][0];
            t in v.state && v.state[t] == Ready && Places(SwitchTo(Dequeue(v, READY), t))
  {
    var t := v.queues[READY][0];
    assert At(v, READY, 0, t);
    var w := SwitchTo(Dequeue(v, READY), t);
    forall q: Queue, i: nat, u: Task | At(w, q, i, u)
      ensures At(v, q, if q == READY then i + 1 else i, u) && u in w.state && Fits(w.state[u], q)
    {
      PopAt(v, READY, q, i, u);
    }
    forall u | u in w.state && Queued(w.state[u])
      ensures InSome(w, u)
    {
      var q: Queue, i: nat :| At(v, q, i, u);
      var i' := if q == READY then i - 1 else i;
      assert q == READY ==> i != 0;
      PopAt(v, READY, q, i', u);
      assert At(w, q, i', u);
    }
  }

  lemma RunningInNone(v: View, c: Task)
    requires Places(v) && c in v.state && !Queued(v.state[c])
    ensures !InSome(v, c)
  {
    forall q: Queue, i: nat
      ensures At(v, q, i, c) ==> Fits(v.state[c], q)
    {
    }
  }

  /** A preempted task: first the next one leaves the ready queue, then the current one joins it. */
  lemma PreemptKeeps(v: View)
    requires Places(v) && v.queues[READY] != [] && v.current in v.state && v.state[v.current] == Running
    ensures var t := v.queues[READY][0];
            t in v.state && v.state[t] == Ready && t != v.current && Places(Preempted(v))
  {
    var t, c := v.queues[READY][0], v.current;
    assert At(v, READY, 0, t);
    RunningInNone(v, c);
    // pushing the current task first gives the same: the head is not affected
    var p := BlockOn(v, READY, c, Ready);
    PushKeeps(v, READY, c, Ready);
    assert NoneRunning(p);
    RunKeeps(p);
    assert (v.queues[READY] + [c])[1..] == v.queues[READY][1..] + [c];
    UpdateTwice(v.queues, READY, v.queues[READY] + [c], v.queues[READY][1..] + [c]);
    assert SwitchTo(Dequeue(p, READY), t) == Preempted(v);
  }

  lemma UpdateTwice<T>(m: map<Queue, T>, q: Queue, a: T, b: T)
    ensures m[q := a][q := b] == m[q := b]
  {
  }

  /** The first task of a lock's or process's queue becomes ready. */
  lemma UnblockKeeps(v: View, q: Queue)
    requires Places(v) && q in v.queues && q != READY && q != WAIT
    ensures Places(UnblockFirst(v, q))
  {
    if v.queues[q] != [] {
      var t := v.queues[q][0];
      assert At(v, q, 0, t);
      var d := Dequeue(v, q);
      var w := UnblockFirst(v, q);
      var n := |v.queues[READY]|;
      assert w == BlockOn(d, READY, t, Ready).(postponed := true);
      forall r: Queue, i: nat, u: Task | At(w, r, i, u)
        ensures if r == READY && i == n then u == t else At(v, r, if r == q then i + 1 else i, u)
        ensures u in w.state && Fits(w.state[u], r)
      {
        PushAt(d, READY, t, Ready);
        assert At(BlockOn(d, READY, t, Ready), r, i, u);
        PopAt(v, q, r, i, u);
      }
      forall u | u in w.state && Queued(w.state[u])
        ensures InSome(w, u)
      {
        if u == t {
          assert At(w, READY, n, t);
        } else {
          var r: Queue, i: nat :| At(v, r, i, u);
          var i' := if r == q then i - 1 else i;
          assert r == q ==> i != 0;
          PopAt(v, q, r, i', u);
          assert At(w, r, i', u);
        }
      }
    }
  }

  // ----- waking the sleepers -----

  predicate Due(target: map<Task, nat>, now: nat, t: Task) {
    t in target && target[t] <= now
  }

  ghost predicate NoDup(ts: seq<Task>) {
    forall i, j | 0 <= i < j < |ts| :: ts[i] != ts[j]
  }

  /** The wakeup splits the queue exactly: members ... */
  lemma {:induction false} SplitMembers(target: map<Task, nat>, now: nat, ts: seq<Task>, t: Task)
    ensures t in Expired(target, now, ts) <==> t in ts && Due(target, now, t)
    ensures t in Sleeping(target, now, ts) <==> t in ts && !Due(target, now, t)
  {
    if ts != [] {
      var n := |ts| - 1;
      SplitMembers(target, now, ts[..n], t);
      assert ts == ts[..n] + [ts[n]];
    }
  }

  /** ... and order: both parts are subsequences, and duplicate-free when the queue was. */
  lemma {:induction false} SplitNoDup(target: map<Task, nat>, now: nat, ts: seq<Task>)
    requires NoDup(ts)
    ensures NoDup(Expired(target, now, ts)) && NoDup(Sleeping(target, now, ts))
  {
    if ts != [] {
      var n := |ts| - 1;
      SplitNoDup(target, now, ts[..n]);
      SplitMembers(target, now, ts[..n], ts[n]);
    }
  }

  predicate Before(ts: seq<Task>, t: Task, u: Task) {
    exists i, j | 0 <= i < j < |ts| :: ts[i] == t && ts[j] == u
  }

  /** Two tasks in the same part are in the order they had in the queue. */
  lemma {:induction false} SplitOrder(target: map<Task, nat>, now: nat, ts: seq<Task>, t: Task, u: Task)
    requires Before(Expired(target, now, ts), t, u) || Before(Sleeping(target, now, ts), t, u)
    ensures Before(ts, t, u)
  {
    if ts != [] {
      var n := |ts| - 1;
      var x := ts[n];
      SplitMembers(target, now, ts[..n], t);
      if Before(Expired(target, now, ts[..n]), t, u) || Before(Sleeping(target, now, ts[..n]), t, u) {
        SplitOrder(target, now, ts[..n], t, u);
      } else {
        LastPair(Expired(target, now, ts[..n]), x, t, u);
        LastPair(Sleeping(target, now, ts[..n]), x, t, u);
        assert t in ts[..n] && u == x;
      }
    }
  }

  lemma LastPair(ts: seq<Task>, x: Task, t: Task, u: Task)
    ensures Before(ts + [x], t, u) ==> Before(ts, t, u) || (t in ts && u == x)
  {
    if Before(ts + [x], t, u) {
      var i, j :| 0 <= i < j < |ts + [x]| && (ts + [x])[i] == t && (ts + [x])[j] == u;
      if j < |ts| { assert ts[i] == t && ts[j] == u; }
    }
  }

  /** One round of the loop in `scheduler_wakeup`. */
  lemma WokenStep(v: View, ts: seq<Task>, t: Task)
    requires READY in v.queues && WAIT in v.queues && t in v.state && t in v.target && t !in ts
    ensures var w := Woken(v, ts);
            && w.target[t] == v.target[t] && w.ticks == v.ticks
            && Woken(v, ts + [t]) ==
               if v.target[t] <= v.ticks then BlockOn(w.(target := w.target[t := 0]), READY, t, Ready)
               else Enqueue(w, WAIT, t)
  {
    assert (ts + [t])[..|ts|] == ts;
    var ready, out, rest := v.queues[READY], Expired(v.target, v.ticks, ts), Sleeping(v.target, v.ticks, ts);
    var a, b := Woken(v, ts), Woken(v, ts + [t]);
    if v.target[t] <= v.ticks {
      assert Expired(v.target, v.ticks, ts + [t]) == out + [t];
      assert Sleeping(v.target, v.ticks, ts + [t]) == rest + [] == rest;
      hide Expired, Sleeping;
      assert ready + (out + [t]) == ready + out + [t];
      assert b.queues == a.queues[READY := ready + out + [t]];
      assert b.state == a.state[t := Ready];
      assert b.target == a.target[t := 0];
    } else {
      assert Expired(v.target, v.ticks, ts + [t]) == out + [] == out;
      assert Sleeping(v.target, v.ticks, ts + [t]) == rest + [t];
      hide Expired, Sleeping;
      assert b.queues == a.queues[WAIT := rest + [t]];
    }
  }

  lemma NoDupQueue(v: View, q: Queue)
    requires Places(v) && q in v.queues
    ensures NoDup(v.queues[q])
  {
    forall i, j | 0 <= i < j < |v.queues[q]|
      ensures v.queues[q][i] != v.queues[q][j]
    {
      assert At(v, q, i, v.queues[q][i]) && At(v, q, j, v.queues[q][j]);
    }
  }

  lemma WakeKeeps(v: View)
    requires Places(v)
    ensures Places(WakeAll(v))
  {
    var ts, now := v.queues[WAIT], v.ticks;
    var out, rest := Expired(v.target, now, ts), Sleeping(v.target, now, ts);
    var w := WakeAll(v);
    NoDupQueue(v, WAIT);
    NoDupQueue(v, READY);
    SplitNoDup(v.target, now, ts);
    forall q: Queue, i: nat, u: Task | At(w, q, i, u)
      ensures u in w.state && Fits(w.state[u], q)
      ensures q != READY && q != WAIT ==> At(v, q, i, u)
    {
      WakeFits(v, q, i, u);
    }
    forall q: Queue, i: nat, r: Queue, j: nat, u: Task | At(w, q, i, u) && At(w, r, j, u)
      ensures q == r && i == j
    {
      WakeUnique(v, q, i, r, j, u);
    }
    forall u | u in w.state && Queued(w.state[u])
      ensures InSome(w, u)
    {
      WakeStays(v, u);
    }
  }

  lemma WakeFits(v: View, q: Queue, i: nat, u: Task)
    requires Places(v) && At(WakeAll(v), q, i, u)
    ensures u in v.state && Fits(WakeAll(v).state[u], q)
    ensures q != READY && q != WAIT ==> At(v, q, i, u)
  {
    var ts := v.queues[WAIT];
    SplitMembers(v.target, v.ticks, ts, u);
    if u in ts {
      var j: nat :| j < |ts| && ts[j] == u;
      assert At(v, WAIT, j, u);
    }
    if q == READY && i < |v.queues[READY]| {
      assert At(v, READY, i, u);
    } else if q != READY && q != WAIT {
      assert At(v, q, i, u);
    }
  }

  lemma NoDupConcat(a: seq<Task>, b: seq<Task>)
    requires NoDup(a) && NoDup(b) && (forall t <- b :: t !in a)
    ensures NoDup(a + b)
  {
    forall i, j | 0 <= i < j < |a + b|
      ensures (a + b)[i] != (a + b)[j]
    {
      if i < |a| <= j {
        assert (a + b)[j] == b[j - |a|] && b[j - |a|] in b;
      }
    }
  }

  lemma WakeNoDup(v: View, q: Queue)
    requires Places(v) && q in v.queues
    ensures NoDup(WakeAll(v).queues[q])
  {
    var ts := v.queues[WAIT];
    NoDupQueue(v, q);
    NoDupQueue(v, WAIT);
    SplitNoDup(v.target, v.ticks, ts);
    if q == READY {
      var ready, out := v.queues[READY], Expired(v.target, v.ticks, ts);
      forall t <- out
        ensures t !in ready
      {
        if t in ready {
          InBoth(v, READY, WAIT, t);
        }
      }
      NoDupConcat(ready, out);
    }
  }

  lemma InBoth(v: View, q: Queue, r: Queue, t: Task)
    requires Places(v) && q in v.queues && r in v.queues && t in v.queues[q] && t in v.queues[r]
    ensures q == r
  {
    var i: nat :| i < |v.queues[q]| && v.queues[q][i] == t;
    var j: nat :| j < |v.queues[r]| && v.queues[r][j] == t;
    assert At(v, q, i, t) && At(v, r, j, t);
  }

  lemma WakeUnique(v: View, q: Queue, i: nat, r: Queue, j: nat, u: Task)
    requires Places(v) && At(WakeAll(v), q, i, u) && At(WakeAll(v), r, j, u)
    ensures q == r && i == j
  {
    hide NoDup;
    WakeFits(v, q, i, u);
    WakeFits(v, r, j, u);
    if q == READY || q == WAIT || r == READY || r == WAIT {
      WakeNoDup(v, q);
      SamePlace(WakeAll(v).queues[q], i, j);
    } else {
      hide WakeAll, Expired, Sleeping;
      assert At(v, q, i, u) && At(v, r, j, u);
    }
  }

  lemma SamePlace(ts: seq<Task>, i: nat, j: nat)
    requires NoDup(ts) && i < |ts| && j < |ts| && ts[i] == ts[j]
    ensures i == j
  {
  }

  lemma WakeStays(v: View, u: Task)
    requires Places(v) && u in v.state && Queued(WakeAll(v).state[u])
    ensures InSome(WakeAll(v), u)
  {
    var ts := v.queues[WAIT];
    var w := WakeAll(v);
    SplitMembers(v.target, v.ticks, ts, u);
    if u in Expired(v.target, v.ticks, ts) {
      var m: nat :| m < |Expired(v.target, v.ticks, ts)| && Expired(v.target, v.ticks, ts)[m] == u;
      assert At(w, READY, |v.queues[READY]| + m, u);
    } else {
      var q: Queue, i: nat :| At(v, q, i, u);
      if q == WAIT {
        assert u in ts;
        var m: nat :| m < |Sleeping(v.target, v.ticks, ts)| && Sleeping(v.target, v.ticks, ts)[m] == u;
        assert At(w, WAIT, m, u);
      } else {
        assert At(w, q, i, u);
      }
    }
  }
}
