/** The intrusive queues of kernel/task.c: first and last pointers, chained by `next_task`. */
module TaskQueues {
  import opened SchedModel

  /** The list that `scheduler_wakeup` has cut off the wait queue is kept under this name. */
  const LOOSE: Queue := 0

  predicate Cell(m: map<Queue, seq<Task>>, q: Queue, i: nat, t: Task) {
    q in m && i < |m[q]| && m[q][i] == t
  }

  ghost predicate Free(m: map<Queue, seq<Task>>, t: Task) {
    forall q: Queue, i: nat :: !Cell(m, q, i, t)
  }

  /** No task is twice in a queue or in two queues. */
  ghost predicate Unique(m: map<Queue, seq<Task>>) {
    forall q: Queue, i: nat, r: Queue, j: nat, t: Task | Cell(m, q, i, t) && Cell(m, r, j, t) :: q == r && i == j
  }

  predicate Heads(first: Task, last: Task, ts: seq<Task>) {
    if ts == [] then first == 0 && last == 0 else first == ts[0] && last == ts[|ts| - 1]
  }

  /** `next_task` leads from each task to the one behind it, and from the last one to NULL. */
  ghost predicate Links(next: map<Task, Task>, ts: seq<Task>) {
    && (forall i | 0 <= i < |ts| :: ts[i] in next && ts[i] != 0)
    && (forall i, j | 0 <= i < j < |ts| && j == i + 1 :: next[ts[i]] == ts[j])
    && (ts != [] ==> next[ts[|ts| - 1]] == 0)
  }

  ghost predicate Wiring(first: map<Queue, Task>, last: map<Queue, Task>, next: map<Task, Task>,
                         m: map<Queue, seq<Task>>) {
    && LOOSE in m && (forall q | q in m && q != LOOSE :: q in first && q in last && Heads(first[q], last[q], m[q]))
    && (forall q | q in m :: Links(next, m[q]))
    && Unique(m)
    && (forall t | t in next && Free(m, t) :: next[t] == 0)
  }

  lemma LinksOther(next: map<Task, Task>, ts: seq<Task>, t: Task, x: Task)
    requires Links(next, ts) && t !in ts
    ensures Links(next[t := x], ts)
  {
  }

  lemma LinksPush(next: map<Task, Task>, ts: seq<Task>, t: Task)
    requires Links(next, ts) && t in next && next[t] == 0 && t != 0 && t !in ts
    requires forall i, j | 0 <= i < j < |ts| :: ts[i] != ts[j]
    ensures Links(if ts == [] then next else next[ts[|ts| - 1] := t], ts + [t])
  {
  }

  lemma LinksPop(next: map<Task, Task>, ts: seq<Task>)
    requires Links(next, ts) && ts != []
    requires forall i, j | 0 <= i < j < |ts| :: ts[i] != ts[j]
    ensures next[ts[0]] == if |ts| == 1 then 0 else ts[1]
    ensures Links(next[ts[0] := 0], ts[1..])
  {
    if |ts| > 1 { assert ts[1] == ts[1..][0]; }
    forall i, j | 0 <= i < j < |ts[1..]| && j == i + 1
      ensures next[ts[1..][i]] == ts[1..][j]
    {
      var a, b := i + 1, j + 1;
      assert ts[1..][i] == ts[a] && ts[1..][j] == ts[b];
    }
  }

  lemma QueueDistinct(m: map<Queue, seq<Task>>, q: Queue)
    requires Unique(m) && q in m
    ensures forall i, j | 0 <= i < j < |m[q]| :: m[q][i] != m[q][j]
  {
    forall i, j | 0 <= i < j < |m[q]|
      ensures m[q][i] != m[q][j]
    {
      assert Cell(m, q, i, m[q][i]) && Cell(m, q, j, m[q][j]);
    }
  }

  /** A task of one queue is in no other. */
  lemma Elsewhere(m: map<Queue, seq<Task>>, q: Queue, i: nat, r: Queue)
    requires Unique(m) && q in m && i < |m[q]| && r in m && r != q
    ensures m[q][i] !in m[r]
  {
    var t := m[q][i];
    if t in m[r] {
      var j: nat :| j < |m[r]| && m[r][j] == t;
      assert Cell(m, q, i, t) && Cell(m, r, j, t);
    }
  }

  lemma FreeNot(m: map<Queue, seq<Task>>, t: Task, q: Queue)
    requires Free(m, t) && q in m
    ensures t !in m[q]
  {
    if t in m[q] {
      var j: nat :| j < |m[q]| && m[q][j] == t;
      assert Cell(m, q, j, t);
    }
  }

  function Pushed(m: map<Queue, seq<Task>>, q: Queue, t: Task): map<Queue, seq<Task>>
    requires q in m
  {
    m[q := m[q] + [t]]
  }

  function Popped(m: map<Queue, seq<Task>>, q: Queue): map<Queue, seq<Task>>
    requires q in m && m[q] != []
  {
    m[q := m[q][1..]]
  }

  lemma PushedCells(m: map<Queue, seq<Task>>, q: Queue, t: Task)
    requires q in m
    ensures forall r: Queue, i: nat, u: Task ::
              Cell(Pushed(m, q, t), r, i, u) <==> Cell(m, r, i, u) || (r == q && i == |m[q]| && u == t)
  {
  }

  lemma PushedUnique(m: map<Queue, seq<Task>>, q: Queue, t: Task)
    requires Unique(m) && q in m && Free(m, t)
    ensures Unique(Pushed(m, q, t))
    ensures forall u :: Free(Pushed(m, q, t), u) ==> Free(m, u) && u != t
  {
    PushedCells(m, q, t);
    assert Cell(Pushed(m, q, t), q, |m[q]|, t);
    hide Pushed;
  }

  lemma PoppedCells(m: map<Queue, seq<Task>>, q: Queue, r: Queue, i: nat, u: Task)
    requires q in m && m[q] != []
    ensures Cell(Popped(m, q), r, i, u) <==> Cell(m, r, if r == q then i + 1 else i, u)
  {
  }

  lemma PoppedUnique(m: map<Queue, seq<Task>>, q: Queue)
    requires Unique(m) && q in m && m[q] != []
    ensures Unique(Popped(m, q)) && Free(Popped(m, q), m[q][0])
    ensures forall u :: Free(Popped(m, q), u) ==> Free(m, u) || u == m[q][0]
  {
    var p, t := Popped(m, q), m[q][0];
    assert Cell(m, q, 0, t);
    forall r: Queue, i: nat, s: Queue, j: nat, u: Task | Cell(p, r, i, u) && Cell(p, s, j, u)
      ensures r == s && i == j
    {
      PoppedCells(m, q, r, i, u);
      PoppedCells(m, q, s, j, u);
    }
    forall r: Queue, i: nat
      ensures !Cell(p, r, i, t)
    {
      PoppedCells(m, q, r, i, t);
    }
    forall u | Free(p, u) && u != t
      ensures Free(m, u)
    {
      forall r: Queue, i: nat
        ensures !Cell(m, r, i, u)
      {
        PoppedCells(m, q, r, if r == q && i > 0 then i - 1 else i, u);
      }
    }
  }

  /** `task_queue` */
  lemma WiringPush(first: map<Queue, Task>, last: map<Queue, Task>, next: map<Task, Task>,
                   m: map<Queue, seq<Task>>, q: Queue, t: Task)
    requires Wiring(first, last, next, m) && q in m && q != LOOSE && t in next && t != 0 && Free(m, t)
    ensures Wiring(if m[q] == [] then first[q := t] else first, last[q := t],
                   if m[q] == [] then next else next[last[q] := t], Pushed(m, q, t))
  {
    hide Unique, Free, Links;
    var ts := m[q];
    var next' := if ts == [] then next else next[last[q] := t];
    QueueDistinct(m, q);
    FreeNot(m, t, q);
    LinksPush(next, ts, t);
    PushedUnique(m, q, t);
    forall r | r in m && r != q
      ensures Links(next', m[r])
    {
      if ts != [] {
        Elsewhere(m, q, |ts| - 1, r);
        LinksOther(next, m[r], last[q], t);
      }
    }
    forall u | u in next' && Free(Pushed(m, q, t), u)
      ensures next'[u] == 0
    {
      if ts != [] { FreeNot(m, u, q); assert ts[|ts| - 1] in ts; }
    }
  }

  /** `task_dequeue`, or a step of the loop in `scheduler_wakeup` */
  lemma WiringPop(first: map<Queue, Task>, last: map<Queue, Task>, next: map<Task, Task>,
                  m: map<Queue, seq<Task>>, q: Queue)
    requires Wiring(first, last, next, m) && q in m && m[q] != []
    ensures var t := m[q][0];
            && t in next && t != 0 && next[t] == (if |m[q]| == 1 then 0 else m[q][1])
            && Free(Popped(m, q), t)
            && Wiring(if q == LOOSE then first else first[q := next[t]],
                      if q == LOOSE || |m[q]| > 1 then last else last[q := 0],
                      next[t := 0], Popped(m, q))
  {
    assert m[q][0] in next && m[q][0] != 0;
    hide Unique, Free, Links;
    var t, next' := m[q][0], next[m[q][0] := 0];
    QueueDistinct(m, q);
    LinksPop(next, m[q]);
    PoppedUnique(m, q);
    forall r | r in m && r != q
      ensures Links(next', m[r])
    {
      Elsewhere(m, q, 0, r);
      LinksOther(next, m[r], t, 0);
    }
  }

  /** The first lines of `scheduler_wakeup`: the list is cut off its queue. */
  lemma WiringCut(first: map<Queue, Task>, last: map<Queue, Task>, next: map<Task, Task>,
                  m: map<Queue, seq<Task>>, q: Queue)
    requires Wiring(first, last, next, m) && q in m && q != LOOSE && m[LOOSE] == []
    ensures Wiring(first[q := 0], last[q := 0], next, m[q := []][LOOSE := m[q]])
  {
    var m' := m[q := []][LOOSE := m[q]];
    CutUnique(m, q);
    assert Links(next, []);
    hide Unique, Free, Links;
  }

  /** A record that is in no queue is set up. */
  lemma WiringRecord(first: map<Queue, Task>, last: map<Queue, Task>, next: map<Task, Task>,
                     m: map<Queue, seq<Task>>, t: Task)
    requires Wiring(first, last, next, m) && Free(m, t)
    ensures Wiring(first, last, next[t := 0], m)
  {
    hide Unique, Free, Links;
    forall r | r in m
      ensures Links(next[t := 0], m[r])
    {
      FreeNot(m, t, r);
      LinksOther(next, m[r], t, 0);
    }
  }

  lemma CutCells(m: map<Queue, seq<Task>>, q: Queue, r: Queue, i: nat, u: Task)
    requires q in m && q != LOOSE && LOOSE in m && m[LOOSE] == []
    ensures var m' := m[q := []][LOOSE := m[q]];
            && (Cell(m', r, i, u) ==> Cell(m, if r == LOOSE then q else r, i, u) && r != q)
            && (Cell(m, r, i, u) ==> Cell(m', if r == q then LOOSE else r, i, u))
  {
  }

  lemma CutUnique(m: map<Queue, seq<Task>>, q: Queue)
    requires Unique(m) && q in m && q != LOOSE && LOOSE in m && m[LOOSE] == []
    ensures Unique(m[q := []][LOOSE := m[q]])
    ensures forall u :: Free(m[q := []][LOOSE := m[q]], u) ==> Free(m, u)
  {
    var m' := m[q := []][LOOSE := m[q]];
    forall r: Queue, i: nat, s: Queue, j: nat, u: Task | Cell(m', r, i, u) && Cell(m', s, j, u)
      ensures r == s && i == j
    {
      CutCells(m, q, r, i, u);
      CutCells(m, q, s, j, u);
    }
    forall u | Free(m', u)
      ensures Free(m, u)
    {
      forall r: Queue, i: nat
        ensures !Cell(m, r, i, u)
      {
        CutCells(m, q, r, i, u);
      }
    }
  }
}
