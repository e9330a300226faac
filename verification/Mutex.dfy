/** The mutex of kernel/task.c as a system of atomic steps: every swap of the lock word, every entry
into the queue of blocked tasks and every removal from it is one step, and the steps of any number of
tasks interleave freely.  `mutex_lock` is entered with no scheduler lock held. */
module MutexModel {
  type Task = int

  /** Where a task is in `mutex_lock` and `mutex_unlock`. */
  datatype Pc =
    | Idle
    | Failed        // the swap returned 1: it will block
    | Waiting       // in the queue of blocked tasks
    | Entering      // got the lock, by its swap or by hand-off
    | Holding
    | Swapped       // in unlock, after the swap
    | Cleared       // `locked_task` is NULL again
    | HandingOff    // saw a blocked task
    | Freeing       // saw none

  datatype State = State(
    lock: int,
    lockedTask: Task,
    queue: seq<Task>,
    pc: map<Task, Pc>,
    /** All tasks that ever entered the queue, and all that ever were handed the lock, in order. */
    entered: seq<Task>,
    granted: seq<Task>)

  datatype Step =
    | SwapLock(t: Task)
    | Block(t: Task)
    | Claim(t: Task)
    | SwapUnlock(t: Task)
    | Clear(t: Task)
    | Test(t: Task)
    | HandOff(t: Task)
    | Free(t: Task)

  /** The step that a task at each place takes next; only a holder unlocks. */
  predicate Enabled(s: State, e: Step) {
    e.t in s.pc &&
    match s.pc[e.t]
    case Idle => e.SwapLock?
    case Failed => e.Block?
    case Waiting => false
    case Entering => e.Claim?
    case Holding => e.SwapUnlock?
    case Swapped => e.Clear?
    case Cleared => e.Test?
    case HandingOff => e.HandOff?
    case Freeing => e.Free?
  }

  function At(s: State, t: Task, p: Pc): State {
    s.(pc := s.pc[t := p])
  }

  function Next(s: State, e: Step): State {
    match e
    case SwapLock(t) => At(s, t, if s.lock != 0 then Failed else Entering).(lock := 1)
    case Block(t) => At(s, t, Waiting).(queue := s.queue + [t], entered := s.entered + [t])
    case Claim(t) => At(s, t, Holding).(lockedTask := t)
    case SwapUnlock(t) => At(s, t, Swapped).(lock := 1)
    case Clear(t) => At(s, t, Cleared).(lockedTask := 0)
    case Test(t) => At(s, t, if s.queue != [] then HandingOff else Freeing)
    case HandOff(t) =>
      if s.queue == [] then At(s, t, Idle)
      else At(At(s, t, Idle), s.queue[0], Entering).(queue := s.queue[1..], granted := s.granted + [s.queue[0]])
    case Free(t) => At(s, t, Idle).(lock := 0)
  }

  /** The assertions of the source, at the step that evaluates them (task.c:467, 473 and 474), and that
  a hand-off finds a task. */
  predicate Asserts(s: State, e: Step) {
    && (e.Claim? ==> s.lockedTask == 0)
    && (e.SwapUnlock? ==> s.lock == 1)
    && (e.Clear? ==> s.lockedTask == e.t)
    && (e.HandOff? ==> s.queue != [])
  }

  /** A task that has the lock, is giving it up, or was handed it. */
  predicate Token(p: Pc) {
    p == Entering || p == Holding || p == Swapped || p == Cleared || p == HandingOff || p == Freeing
  }

  predicate Owner(p: Pc) {
    p == Holding || p == Swapped
  }

  ghost predicate Has(s: State, t: Task) {
    t in s.pc && Token(s.pc[t])
  }

  /** The lock word is 1 exactly when there is a token, and there is never more than one. */
  ghost predicate OneToken(s: State) {
    && 0 !in s.pc && (s.lock == 0 || s.lock == 1)
    && (s.lock == 1 <==> exists t :: Has(s, t))
    && (forall t, u | Has(s, t) && Has(s, u) :: t == u)
  }

  ghost predicate Named(s: State) {
    && (forall t | t in s.pc && Owner(s.pc[t]) :: s.lockedTask == t)
    && (s.lockedTask != 0 ==> s.lockedTask in s.pc && Owner(s.pc[s.lockedTask]))
  }

  ghost predicate Queued(s: State) {
    && (forall i, j | 0 <= i < j < |s.queue| :: s.queue[i] != s.queue[j])
    && (forall t | t in s.queue :: t in s.pc && s.pc[t] == Waiting)
    && (forall t | t in s.pc && s.pc[t] == Waiting :: t in s.queue)
    && (forall t | t in s.pc && s.pc[t] == HandingOff :: s.queue != [])
    && s.entered == s.granted + s.queue
  }

  ghost predicate Inv(s: State) {
    OneToken(s) && Named(s) && Queued(s)
  }

  lemma TokenKept(s: State, e: Step)
    requires Inv(s) && Enabled(s, e)
    ensures OneToken(Next(s, e))
  {
    hide Named;
    var w := Next(s, e);
    if e.SwapLock? && s.lock == 0 {
      assert Has(w, e.t);
      assert forall t | Has(w, t) && t != e.t :: Has(s, t);
    } else if e.HandOff? {
      assert Has(s, e.t);
      assert Has(w, s.queue[0]);
      assert forall t | Has(w, t) && t != s.queue[0] :: Has(s, t) && t != e.t;
    } else {
      hide Queued;
      assert Token(s.pc[e.t]) ==> Has(s, e.t);
      assert forall t | Has(w, t) :: Has(s, t);
      if e.Free? {
        assert Has(s, e.t);
        assert !Has(w, e.t);
      } else if s.lock == 1 {
        var t :| Has(s, t);
        assert Has(w, t);
      }
    }
  }

  lemma NamedKept(s: State, e: Step)
    requires Inv(s) && Enabled(s, e)
    ensures Named(Next(s, e))
  {
    hide Queued;
    var w := Next(s, e);
    forall t | t in w.pc && Owner(w.pc[t])
      ensures w.lockedTask == t
    {
      SameToken(s, e, t);
    }
    if w.lockedTask != 0 && !e.Claim? {
      SameToken(s, e, s.lockedTask);
      assert s.lockedTask in s.pc;
    }
  }

  /** Only the task of the step can have the token when the step needs it. */
  lemma SameToken(s: State, e: Step, t: Task)
    requires OneToken(s) && Enabled(s, e)
    ensures Has(s, t) && Has(s, e.t) ==> t == e.t
  {
  }

  /** A task in the queue is not the one that steps. */
  lemma WaitersWait(s: State, e: Step)
    requires Inv(s) && Enabled(s, e)
    ensures e.t !in s.queue
  {
  }

  lemma QueueKept(s: State, e: Step)
    requires Inv(s) && Enabled(s, e)
    ensures Queued(Next(s, e))
  {
    hide Named;
    WaitersWait(s, e);
    if e.HandOff? {
      HandOffKept(s, e);
    } else if e.Block? {
      hide OneToken;
      var w := Next(s, e);
      assert w.entered == w.granted + w.queue;
    } else {
      hide OneToken;
    }
  }

  lemma HandOffKept(s: State, e: Step)
    requires Inv(s) && Enabled(s, e) && e.HandOff? && e.t !in s.queue
    ensures Queued(Next(s, e))
  {
    hide OneToken, Named, Inv;
    QueueOf(s);
    var t, w := s.queue[0], Next(s, e);
    assert s.queue == [t] + w.queue;
    Rest(s.queue, w.queue);
    HandOffPlaces(s, e);
    hide Enabled;
    assert w.entered == w.granted + w.queue;
  }

  /** After a hand-off the waiting tasks are those that were, but for the first; nobody hands off. */
  lemma HandOffPlaces(s: State, e: Step)
    requires Inv(s) && Enabled(s, e) && e.HandOff? && e.t !in s.queue && s.queue != []
    ensures var w := Next(s, e);
            forall u :: (u in w.pc && w.pc[u] == Waiting <==> u in s.queue && u != s.queue[0]) &&
                        (u in w.pc ==> w.pc[u] != HandingOff)
  {
    hide OneToken, Named, Inv;
    OnlyHandsOff(s, e);
    QueueOf(s);
  }

  lemma QueueOf(s: State)
    requires Inv(s)
    ensures Queued(s)
  {
  }

  lemma Rest(ts: seq<Task>, us: seq<Task>)
    requires ts != [] && ts == [ts[0]] + us && forall i, j | 0 <= i < j < |ts| :: ts[i] != ts[j]
    ensures forall i, j | 0 <= i < j < |us| :: us[i] != us[j]
    ensures forall u :: u in us <==> u in ts && u != ts[0]
  {
    forall i | 0 <= i < |us|
      ensures us[i] == ts[i + 1]
    {
    }
  }

  lemma OnlyHandsOff(s: State, e: Step)
    requires Inv(s) && Enabled(s, e) && e.HandOff?
    ensures forall t | t in s.pc && s.pc[t] == HandingOff :: t == e.t
  {
    assert Has(s, e.t);
    forall t | t in s.pc && s.pc[t] == HandingOff
      ensures t == e.t
    {
      assert Has(s, t);
    }
  }

  /** Every step of every task keeps the invariant ... */
  lemma StepKeeps(s: State, e: Step)
    requires Inv(s) && Enabled(s, e)
    ensures Inv(Next(s, e))
  {
    TokenKept(s, e);
    NamedKept(s, e);
    QueueKept(s, e);
  }

  /** ... and no assertion of the source fails. */
  lemma AssertsHold(s: State, e: Step)
    requires Inv(s) && Enabled(s, e)
    ensures Asserts(s, e)
  {
    assert Token(s.pc[e.t]) ==> Has(s, e.t);
    if e.Claim? && s.lockedTask != 0 {
      assert Has(s, s.lockedTask);
    }
  }

  ghost predicate Legal(s: State, es: seq<Step>)
    decreases |es|
  {
    es == [] || (Enabled(s, es[0]) && Legal(Next(s, es[0]), es[1..]))
  }

  function Run(s: State, es: seq<Step>): State
    decreases |es|
  {
    if es == [] then s else Run(Next(s, es[0]), es[1..])
  }

  /** A fresh mutex and any set of tasks. */
  ghost predicate Init(s: State) {
    && s.lock == 0 && s.lockedTask == 0 && s.queue == [] && s.entered == [] && s.granted == [] && 0 !in s.pc
    && forall t | t in s.pc :: s.pc[t] == Idle
  }

  lemma {:induction false} RunKeeps(s: State, es: seq<Step>)
    requires Inv(s) && Legal(s, es)
    ensures Inv(Run(s, es))
    decreases |es|
  {
    hide Inv, Enabled, Next;
    if es != [] {
      StepKeeps(s, es[0]);
      RunKeeps(Next(s, es[0]), es[1..]);
    }
  }

  /** Whatever the interleaving: at most one task is between `mutex_lock` and the end of `mutex_unlock`,
  the lock word says whether there is one, no assertion ever fails, and the tasks that blocked get the
  lock in the order in which they blocked. */
  lemma MutualExclusion(s: State, es: seq<Step>, t: Task, u: Task)
    requires Init(s) && Legal(s, es)
    ensures var w := Run(s, es);
            && (Has(w, t) && Has(w, u) ==> t == u)
            && (Has(w, t) ==> w.lock == 1)
            && (w.lock != 0 ==> exists x :: Has(w, x))
            && w.entered == w.granted + w.queue
            && (forall e: Step | Enabled(w, e) :: Asserts(w, e))
  {
    assert forall x :: !Has(s, x);
    assert Inv(s);
    RunKeeps(s, es);
    hide Init, Legal, Run;
    var w := Run(s, es);
    forall e: Step | Enabled(w, e)
      ensures Asserts(w, e)
    {
      AssertsHold(w, e);
    }
  }

  // ----- what is not promised -----

  /** A free lock with a task in the queue: nobody is left to wake it. */
  predicate Stranded(s: State) {
    s.lock == 0 && s.queue != []
  }

  /** Two steps strand a task that failed its swap before the lock was freed: blocking after that, and the
  freeing itself when the task blocked after the unlock had seen an empty queue.  Only a `mutex_lock`
  that takes the free lock ends it. */
  lemma StrandedExactly(s: State, e: Step)
    requires Inv(s) && Enabled(s, e)
    ensures Stranded(Next(s, e)) <==>
              (s.queue != [] && (e.Free? || (s.lock == 0 && !e.SwapLock?))) || (e.Block? && s.lock == 0)
  {
    if e.HandOff? || e.SwapUnlock? { assert Has(s, e.t); }
  }

  /** No task has blocked between the test and the freeing of an unlock, and none blocks on a free lock. */
  predicate InTime(s: State, e: Step) {
    (e.Free? ==> s.queue == []) && (e.Block? ==> s.lock != 0)
  }

  predicate AllInTime(s: State, es: seq<Step>)
    decreases |es|
  {
    es == [] || (InTime(s, es[0]) && AllInTime(Next(s, es[0]), es[1..]))
  }

  /** Some state along the run is stranded. */
  predicate EverStranded(s: State, es: seq<Step>)
    decreases |es|
  {
    Stranded(s) || (es != [] && EverStranded(Next(s, es[0]), es[1..]))
  }

  /** Over whole runs: no waiter is ever left on a free lock if and only if every freeing finds nobody
  waiting and every blocking finds the lock taken. */
  lemma {:induction false} NeverStrandedExactly(s: State, es: seq<Step>)
    requires Inv(s) && Legal(s, es) && !Stranded(s)
    ensures !EverStranded(s, es) <==> AllInTime(s, es)
    decreases |es|
  {
    hide Inv, Enabled, Next;
    if es != [] {
      StepKeeps(s, es[0]);
      StrandedExactly(s, es[0]);
      if !Stranded(Next(s, es[0])) { NeverStrandedExactly(Next(s, es[0]), es[1..]); }
    }
  }

  /** Such a run: task 2 fails its swap, task 1 unlocks and sees nobody, task 2 blocks. */
  lemma LostWakeup()
    ensures var s := State(0, 0, [], map[1 := Idle, 2 := Idle], [], []);
            var es := [SwapLock(1), Claim(1), SwapLock(2), SwapUnlock(1), Clear(1), Test(1), Block(2), Free(1)];
            Init(s) && Legal(s, es) && Stranded(Run(s, es)) && Run(s, es).pc == map[1 := Idle, 2 := Waiting]
  {
    var s := State(0, 0, [], map[1 := Idle, 2 := Idle], [], []);
    var s1 := Next(s, SwapLock(1));
    var s2 := Next(s1, Claim(1));
    var s3 := Next(s2, SwapLock(2));
    var s4 := Next(s3, SwapUnlock(1));
    var s5 := Next(s4, Clear(1));
    var s6 := Next(s5, Test(1));
    var s7 := Next(s6, Block(2));
    var s8 := Next(s7, Free(1));
    var es := [SwapLock(1), Claim(1), SwapLock(2), SwapUnlock(1), Clear(1), Test(1), Block(2), Free(1)];
    LastStep(s7, es[7..], s8);
    ConsStep(s6, es[6..], s7, s8);
    ConsStep(s5, es[5..], s6, s8);
    ConsStep(s4, es[4..], s5, s8);
    ConsStep(s3, es[3..], s4, s8);
    ConsStep(s2, es[2..], s3, s8);
    ConsStep(s1, es[1..], s2, s8);
    ConsStep(s, es, s1, s8);
  }

  lemma LastStep(s: State, es: seq<Step>, w: State)
    requires |es| == 1 && Enabled(s, es[0]) && w == Next(s, es[0])
    ensures Legal(s, es) && Run(s, es) == w
  {
    assert es[1..] == [];
  }

  lemma ConsStep(s: State, es: seq<Step>, u: State, w: State)
    requires es != [] && Enabled(s, es[0]) && u == Next(s, es[0]) && Legal(u, es[1..]) && Run(u, es[1..]) == w
    ensures Legal(s, es) && Run(s, es) == w
  {
  }

  // ----- the functions themselves -----

  /** mutex_t, with the queue of blocked tasks as module `Scheduler` shows its pointers to be, and where
  each task is in the two functions. */
  class Mutex {
    var lock: int
    var lockedTask: Task
    var blocked: seq<Task>
    ghost var pc: map<Task, Pc>
    ghost var entered: seq<Task>
    ghost var granted: seq<Task>

    constructor (tasks: set<Task>)
      requires 0 !in tasks
      ensures Init(Abs()) && Inv(Abs()) && pc.Keys == tasks
    {
      lock, lockedTask, blocked := 0, 0, [];
      pc, entered, granted := map t | t in tasks :: Idle, [], [];
      new;
      assert forall x :: !Has(Abs(), x);
    }

    ghost function Abs(): State
      reads this
    {
      State(lock, lockedTask, blocked, pc, entered, granted)
    }

    /** `mutex_lock` as far as it gets by itself: to the end, or into the queue. */
    method MutexLock(t: Task) returns (acquired: bool)
      requires Inv(Abs()) && t in pc && pc[t] == Idle
      modifies this
      ensures Inv(Abs()) && acquired == (old(lock) == 0)
      ensures Abs() == Next(Next(old(Abs()), SwapLock(t)), if acquired then Claim(t) else Block(t))
    {
      hide Inv;
      ghost var s := Abs();
      ghost var e2 := if lock == 0 then Claim(t) else Block(t);
      TwoSteps(s, SwapLock(t), e2);
      var prev := lock;
      lock, pc := 1, pc[t := if lock != 0 then Failed else Entering];
      acquired := prev == 0;
      if prev != 0 {
        blocked, entered, pc := blocked + [t], entered + [t], pc[t := Waiting];
        return;
      }
      assert lockedTask == 0;
      lockedTask, pc := t, pc[t := Holding];
    }

    /** `mutex_unlock`, when nothing interrupts it: the first blocked task gets the lock, or it is free. */
    method MutexUnlock(t: Task)
      requires Inv(Abs()) && t in pc && pc[t] == Holding
      modifies this
      ensures Inv(Abs()) && (lock == 0 <==> old(blocked) == [])
      ensures Abs() == Next(Next(Next(Next(old(Abs()), SwapUnlock(t)), Clear(t)), Test(t)),
                            if old(blocked) == [] then Free(t) else HandOff(t))
    {
      hide Inv;
      ghost var s := Abs();
      ghost var s2 := Next(Next(s, SwapUnlock(t)), Clear(t));
      TwoSteps(s, SwapUnlock(t), Clear(t));
      TwoSteps(s2, Test(t), if blocked == [] then Free(t) else HandOff(t));
      var prev := lock;
      lock, pc := 1, pc[t := Swapped];
      assert prev == 1;
      assert lockedTask == t;
      lockedTask, pc := 0, pc[t := Cleared];
      assert Abs() == s2;
      pc := pc[t := if blocked != [] then HandingOff else Freeing];
      if blocked != [] {
        pc := pc[t := Idle];
        var u := blocked[0];
        blocked, granted, pc := blocked[1..], granted + [u], pc[u := Entering];
      } else {
        lock, pc := 0, pc[t := Idle];
      }
    }

    /** The rest of `mutex_lock` when a task that blocked runs again. */
    method AfterBlocking(t: Task)
      requires Inv(Abs()) && t in pc && pc[t] == Entering
      modifies this
      ensures Inv(Abs()) && Abs() == Next(old(Abs()), Claim(t))
    {
      hide Inv;
      StepKeeps(Abs(), Claim(t));
      AssertsHold(Abs(), Claim(t));
      assert lockedTask == 0;
      lockedTask, pc := t, pc[t := Holding];
    }
  }

  /** What the steps of an undisturbed `mutex_lock` come to: the lock, or a place at the end of the queue. */
  lemma LockEffect(s: State, t: Task)
    requires t in s.pc && s.pc[t] == Idle
    ensures var w := Next(Next(s, SwapLock(t)), if s.lock == 0 then Claim(t) else Block(t));
            w == if s.lock == 0 then s.(lock := 1, lockedTask := t, pc := s.pc[t := Holding])
                 else s.(lock := 1, queue := s.queue + [t], entered := s.entered + [t], pc := s.pc[t := Waiting])
  {
    assert s.pc[t := Failed][t := Waiting] == s.pc[t := Waiting];
    assert s.pc[t := Entering][t := Holding] == s.pc[t := Holding];
  }

  /** ... and those of a `mutex_unlock`: the first of the queue gets the lock, which stays taken; with nobody in
      it the lock is free. */
  lemma UnlockEffect(s: State, t: Task)
    requires t in s.pc && s.pc[t] == Holding && t !in s.queue
    ensures var s4 := Next(Next(Next(s, SwapUnlock(t)), Clear(t)), Test(t));
            && s4.pc == s.pc[t := if s.queue == [] then Freeing else HandingOff]
            && s4 == s.(lock := 1, lockedTask := 0, pc := s4.pc)
            && Next(s4, if s.queue == [] then Free(t) else HandOff(t)) ==
               if s.queue == [] then s.(lock := 0, lockedTask := 0, pc := s.pc[t := Idle])
               else s.(lock := 1, lockedTask := 0, queue := s.queue[1..], granted := s.granted + [s.queue[0]],
                       pc := s.pc[t := Idle][s.queue[0] := Entering])
  {
    var p := if s.queue == [] then Freeing else HandingOff;
    assert s.pc[t := Swapped][t := Cleared][t := p] == s.pc[t := p];
    assert s.pc[t := p][t := Idle] == s.pc[t := Idle];
  }

  lemma TwoSteps(s: State, a: Step, b: Step)
    requires Inv(s) && Enabled(s, a) && Enabled(Next(s, a), b)
    ensures Inv(Next(Next(s, a), b)) && Asserts(s, a) && Asserts(Next(s, a), b)
  {
    hide Inv, Enabled, Next, Asserts;
    StepKeeps(s, a);
    StepKeeps(Next(s, a), b);
    AssertsHold(s, a);
    AssertsHold(Next(s, a), b);
  }
}
