/** The ready queue and the sleep list (kernel/src/process/scheduler.rs): both run through the tasks' own `next`
    fields. One processor; register contexts are elsewhere. */
module Scheduler {
  import opened Chains
  import Signals

  datatype State = Ready | Running | Blocked | Exited

  datatype Task = Task(state: State, until: nat, idle: bool)

  type Tasks = map<nat, Cell<Task>>

  // Tasks of a list whose time has come, and the others, each in order.
  function Due(h: Tasks, ts: seq<nat>, now: nat): (r: seq<nat>) {
    if ts == [] then []
    else (if ts[0] in h && h[ts[0]].val.until <= now then [ts[0]] else []) + Due(h, ts[1..], now)
  }

  function NotDue(h: Tasks, ts: seq<nat>, now: nat): (r: seq<nat>) {
    if ts == [] then []
    else (if ts[0] in h && h[ts[0]].val.until <= now then [] else [ts[0]]) + NotDue(h, ts[1..], now)
  }

  /** Waking loses and duplicates nobody, and wakes exactly those whose time has come. */
  lemma DueSplits(h: Tasks, ts: seq<nat>, now: nat)
    ensures multiset(Due(h, ts, now)) + multiset(NotDue(h, ts, now)) == multiset(ts)
    ensures forall t :: t in Due(h, ts, now) <==> t in ts && t in h && h[t].val.until <= now
    ensures |Due(h, ts, now)| + |NotDue(h, ts, now)| == |ts|
  {
    DueCounts(h, ts, now);
    DueMembers(h, ts, now);
  }

  lemma DueStep(h: Tasks, ts: seq<nat>, now: nat)
    requires ts != []
    ensures var due := ts[0] in h && h[ts[0]].val.until <= now;
            && Due(h, ts, now) == (if due then [ts[0]] else []) + Due(h, ts[1..], now)
            && NotDue(h, ts, now) == (if due then [] else [ts[0]]) + NotDue(h, ts[1..], now)
  {
  }

  lemma {:induction false} DueCounts(h: Tasks, ts: seq<nat>, now: nat)
    ensures multiset(Due(h, ts, now)) + multiset(NotDue(h, ts, now)) == multiset(ts)
    ensures |Due(h, ts, now)| + |NotDue(h, ts, now)| == |ts|
  {
    hide Due, NotDue;
    if ts == [] {
      NobodyDue(h, now);
    } else {
      DueStep(h, ts, now);
      DueCounts(h, ts[1..], now);
      assert ts == [ts[0]] + ts[1..];
    }
  }

  lemma {:induction false} DueMembers(h: Tasks, ts: seq<nat>, now: nat)
    ensures forall t :: t in Due(h, ts, now) <==> t in ts && t in h && h[t].val.until <= now
    ensures forall t :: t in NotDue(h, ts, now) <==> t in ts && !(t in h && h[t].val.until <= now)
  {
    if ts == [] {
    } else {
      DueMembers(h, ts[1..], now);
      assert forall t :: t in ts <==> t == ts[0] || t in ts[1..];
    }
  }

  lemma {:induction false} DueSnoc(h: Tasks, ts: seq<nat>, t: nat, now: nat)
    requires t in h
    ensures Due(h, ts + [t], now) == Due(h, ts, now) + (if h[t].val.until <= now then [t] else [])
    ensures NotDue(h, ts + [t], now) == NotDue(h, ts, now) + (if h[t].val.until <= now then [] else [t])
  {
    if ts == [] {
      assert ts + [t] == [t] && [t][1..] == [];
    } else {
      assert (ts + [t])[1..] == ts[1..] + [t];
      DueSnoc(h, ts[1..], t, now);
    }
  }

  // ---------------------------------------------------------------- dispatching, as a queue

  // Who runs and who waits, in order.
  datatype Queue = Queue(current: nat, ready: seq<nat>)

  // A preemption or a yield: the woken and then the current task (unless idle) join the end, the first one runs. An
  // exit: the first one runs, or the idle task if there is none. Other tasks are made ready in between.
  datatype Event = Turn(woken: seq<nat>, requeue: bool) | Leave(idle: nat) | MadeReady(task: nat)

  predicate Dispatches(e: Event) { !e.MadeReady? }

  function After(q: Queue, e: Event): Queue {
    match e
    case Turn(woken, requeue) =>
      var all := q.ready + woken + if requeue then [q.current] else [];
      if all == [] then q else Queue(all[0], all[1..])
    case Leave(idle) => if q.ready == [] then Queue(idle, []) else Queue(q.ready[0], q.ready[1..])
    case MadeReady(t) => Queue(q.current, q.ready + [t])
  }

  function Run(q: Queue, es: seq<Event>): Queue
    decreases |es|
  {
    if es == [] then q else Run(After(q, es[0]), es[1..])
  }

  function Dispatched(es: seq<Event>): nat {
    if es == [] then 0 else (if Dispatches(es[0]) then 1 else 0) + Dispatched(es[1..])
  }

  /** A waiting task moves up by one place with every dispatch, whatever else happens ... */
  lemma {:induction false} MovesUp(q: Queue, es: seq<Event>, k: nat)
    requires k < |q.ready| && Dispatched(es) <= k
    ensures var r := Run(q, es); k - Dispatched(es) < |r.ready| && r.ready[k - Dispatched(es)] == q.ready[k]
    decreases |es|
  {
    if es == [] {
    } else {
      var q1 := After(q, es[0]);
      if Dispatches(es[0]) {
        assert q1.ready[k - 1] == q.ready[k];
        MovesUp(q1, es[1..], k - 1);
      } else {
        MovesUp(q1, es[1..], k);
      }
    }
  }

  /** ... so whoever waits at position k runs with exactly the (k+1)-th dispatch. */
  lemma RunsInTurn(q: Queue, es: seq<Event>, e: Event, k: nat)
    requires k < |q.ready| && Dispatched(es) == k && Dispatches(e)
    ensures After(Run(q, es), e).current == q.ready[k]
  {
    MovesUp(q, es, k);
  }

  // ---------------------------------------------------------------- the linked lists

  class Scheduler {
    var tasks: Tasks
    var head: nat
    var tail: nat
    var sleepHead: nat
    var sleepCount: nat
    var current: nat
    ghost var ready: seq<nat>
    ghost var sleeping: seq<nat>

    ghost predicate Valid()
      reads this
    {
      && Seg(tasks, head, ready, 0) && tail == Last(ready)
      && Seg(tasks, sleepHead, sleeping, 0) && sleepCount == |sleeping|
      && forall t :: t in ready ==> t !in sleeping
    }

    ghost function Q(): Queue
      reads this
    {
      Queue(current, ready)
    }

    constructor (known: Tasks, first: nat)
      ensures Valid() && ready == [] && sleeping == [] && tasks == known && current == first
    {
      tasks, head, tail, sleepHead, sleepCount, current := known, 0, 0, 0, 0, first;
      ready, sleeping := [], [];
    }

    // enqueue
    method Enqueue(t: nat)
      requires Valid() && t != 0 && t in tasks && t !in ready && t !in sleeping
      modifies this`tasks, this`head, this`tail, this`ready
      ensures Valid() && ready == old(ready) + [t]
      ensures tasks.Keys == old(tasks.Keys) && forall x :: x in tasks ==> tasks[x].val == old(tasks)[x].val
    {
      Appended(tasks, head, ready, t);
      SegIn(tasks, head, ready, 0);
      SegIn(tasks, sleepHead, sleeping, 0);
      ghost var h := tasks;
      tasks := tasks[t := tasks[t].(next := 0)];
      if head == 0 {
        head, tail := t, t;
      } else {
        tasks := tasks[tail := tasks[tail].(next := t)];
        tail := t;
      }
      SegFrame(h, tasks, sleepHead, sleeping, 0);
      ready := ready + [t];
    }

    // dequeue
    method Dequeue() returns (t: nat)
      requires Valid()
      modifies this`tasks, this`head, this`tail, this`ready
      ensures Valid() && (t == 0 <==> old(ready) == [])
      ensures t == 0 ==> ready == [] && tasks == old(tasks)
      ensures t != 0 ==> old(ready) == [t] + ready && t in tasks && t !in ready && t !in sleeping
      ensures tasks.Keys == old(tasks.Keys) && forall x :: x in tasks ==> tasks[x].val == old(tasks)[x].val
    {
      if head == 0 { return 0; }
      t := head;
      SegIn(tasks, head, ready, 0);
      ghost var h := tasks;
      head := tasks[t].next;
      if head == 0 { tail := 0; }
      tasks := tasks[t := tasks[t].(next := 0)];
      SegFrame(h, tasks, head, ready[1..], 0);
      SegFrame(h, tasks, sleepHead, sleeping, 0);
      assert ready == [t] + ready[1..];
      ready := ready[1..];
    }

    // sleep_enqueue
    method SleepEnqueue(t: nat, ticks: nat)
      requires Valid() && t != 0 && t in tasks && t !in ready && t !in sleeping
      modifies this`tasks, this`sleepHead, this`sleepCount, this`sleeping
      ensures Valid() && sleeping == [t] + old(sleeping) && ready == old(ready)
      ensures tasks.Keys == old(tasks.Keys) && tasks[t].val == old(tasks)[t].val.(state := Blocked, until := ticks)
      ensures forall x :: x in tasks && x != t ==> tasks[x].val == old(tasks)[x].val
    {
      ghost var h := tasks;
      tasks := tasks[t := Cell(tasks[t].val.(state := Blocked, until := ticks), sleepHead)];
      SegFrame(h, tasks, head, ready, 0);
      SegFrame(h, tasks, sleepHead, sleeping, 0);
      sleepHead, sleepCount := t, sleepCount + 1;
      assert ([t] + sleeping)[1..] == sleeping;
      sleeping := [t] + sleeping;
    }

    // The running task is in neither list.
    ghost predicate OnCpu()
      reads this
    {
      current != 0 && current in tasks && current !in ready && current !in sleeping
    }

    method SetState(t: nat, st: State)
      requires Valid() && t in tasks
      modifies this`tasks
      ensures Valid() && tasks == old(tasks)[t := old(tasks)[t].(val := old(tasks)[t].val.(state := st))]
    {
      ghost var h := tasks;
      tasks := tasks[t := tasks[t].(val := tasks[t].val.(state := st))];
      SegFrame(h, tasks, head, ready, 0);
      SegFrame(h, tasks, sleepHead, sleeping, 0);
    }

    // How both begin: the sleepers, then the signals of the running task.
    method WakeAndSignal(now: nat, proc: Signals.Process)
      requires Valid() && OnCpu()
      modifies this`tasks, this`head, this`tail, this`sleepHead, this`sleepCount, this`ready, this`sleeping, proc
      ensures Valid() && OnCpu() && proc.S() == Signals.Delivered(old(proc.S()), 1)
      ensures ready == old(ready) + Due(old(tasks), old(sleeping), now)
      ensures sleeping == NotDue(old(tasks), old(sleeping), now)
      ensures tasks.Keys == old(tasks.Keys) && tasks[current].val.idle == old(tasks)[current].val.idle
      ensures proc.task.exited ==> tasks[current].val.state == Exited
    {
      hide Seg, Due, NotDue, Signals.Delivered;
      DueMembers(tasks, sleeping, now);
      SleepWakeAll(now);
      StillIdle(old(tasks), tasks, Due(old(tasks), old(sleeping), now), current);
      proc.DeliverSignals();
      if proc.task.exited { SetState(current, Exited); }
    }

    /** krust_sched_preempt and krust_sched_yield_handler: sleepers whose time has come and then the running task join
        the end of the queue, its first task runs. The idle task is never queued. Signals of the running task, kept in
        `proc`, are delivered before that: one that kills it marks it as exited, and unless it is the idle task it is
        made ready, or running, all the same. */
    method Reschedule(now: nat, proc: Signals.Process)
      requires Valid() && OnCpu()
      modifies this, proc
      ensures Valid() && proc.S() == Signals.Delivered(old(proc.S()), 1)
      ensures Q() == After(old(Q()), Turn(Due(old(tasks), old(sleeping), now), !old(tasks)[old(current)].val.idle))
      ensures sleeping == NotDue(old(tasks), old(sleeping), now) && OnCpu() && tasks.Keys == old(tasks.Keys)
      ensures !old(tasks)[old(current)].val.idle || current != old(current) ==> tasks[current].val.state == Running
      ensures !old(tasks)[old(current)].val.idle && current != old(current) ==> tasks[old(current)].val.state == Ready
      ensures old(tasks)[old(current)].val.idle && current != old(current) && proc.task.exited ==>
        tasks[old(current)].val.state == Exited
    {
      hide Seg, Due, NotDue, Signals.Delivered;
      WakeAndSignal(now, proc);
      ghost var r := ready;
      if tasks[current].val.idle {
        var first := Dequeue();
        assert r + [] == r;
        if first != 0 {
          current := first;
          SetState(first, Running);
        }
        return;
      }
      Rotate();
    }

    // The running task goes to the end, the first one runs.
    method Rotate()
      requires Valid() && OnCpu()
      modifies this
      ensures Valid() && OnCpu() && sleeping == old(sleeping) && tasks.Keys == old(tasks.Keys)
      ensures [current] + ready == old(ready) + [old(current)] && tasks[current].val.state == Running
      ensures current != old(current) ==> tasks[old(current)].val.state == Ready
    {
      hide Seg;
      SetState(current, Ready);
      Enqueue(current);
      var next := Dequeue();
      current := next;
      SetState(next, Running);
    }

    /** krust_sched_exit: the first task in the queue runs, or the idle task if nobody waits. The idle task does not
        exit. */
    method Exit(idle: nat)
      requires Valid() && OnCpu() && idle != 0 && idle in tasks && idle !in ready && idle !in sleeping
      modifies this
      ensures Valid() && OnCpu() && sleeping == old(sleeping) && tasks.Keys == old(tasks.Keys)
      ensures old(current) == idle ==> Q() == old(Q()) && tasks == old(tasks)
      ensures old(current) != idle ==>
        && Q() == After(old(Q()), Leave(idle))
        && tasks[old(current)].val.state == Exited
        && tasks[current].val.state == Running
    {
      hide Seg;
      if current == idle { return; }
      SetState(current, Exited);
      var next := Dequeue();
      if next == 0 { next := idle; }
      current := next;
      SetState(next, Running);
    }

    // sleep_wake_all stopped at curr: `seen` is done with, of those `kept` still sleep.
    ghost predicate Waking(h: Tasks, ready0: seq<nat>, sleeping0: seq<nat>, now: nat, seen: seq<nat>, kept: seq<nat>,
                           curr: nat, rest: seq<nat>)
      reads this
    {
      && Seg(tasks, head, ready, 0) && tail == Last(ready) && Cut(tasks, sleepHead, kept, curr, rest)
      && sleepCount == |kept| + |rest|
      && seen + rest == sleeping0 && kept == NotDue(h, seen, now) && ready == ready0 + Due(h, seen, now)
      && (forall t :: t in ready ==> t !in kept && t !in rest)
      && tasks.Keys == h.Keys && (forall t :: t in rest && t in h ==> tasks[t].val == h[t].val)
      && Woken(h, tasks, Due(h, seen, now))
    }

    /** sleep_wake_all: the tasks whose time has come go to the end of the ready queue, in list order; the others stay
        asleep, in order. */
    method SleepWakeAll(now: nat)
      requires Valid()
      modifies this`tasks, this`head, this`tail, this`sleepHead, this`sleepCount, this`ready, this`sleeping
      ensures Valid()
      ensures ready == old(ready) + Due(old(tasks), old(sleeping), now)
      ensures sleeping == NotDue(old(tasks), old(sleeping), now)
      ensures tasks.Keys == old(tasks.Keys) && Woken(old(tasks), tasks, Due(old(tasks), old(sleeping), now))
    {
      hide Seg, Cut, Due, NotDue, Woken;
      var prev, curr := 0, sleepHead;
      ghost var seen, kept, rest := [], [], sleeping;
      ghost var h := tasks;
      CutStart(tasks, sleepHead, sleeping);
      NobodyDue(h, now);
      SegIn(tasks, sleepHead, sleeping, 0);
      while curr != 0
        invariant Waking(h, old(ready), old(sleeping), now, seen, kept, curr, rest) && prev == Last(kept)
        invariant h == old(tasks)
        decreases |rest|
      {
        CutDone(tasks, sleepHead, kept, curr, rest);
        var next := tasks[curr].next;
        DueSnoc(h, seen, curr, now);
        assert rest[0] in rest && h[curr].val == tasks[curr].val;
        if tasks[curr].val.until <= now {
          Wake(h, old(ready), old(sleeping), now, seen, kept, curr, rest, prev, next);
        } else {
          Sleeps(h, old(ready), old(sleeping), now, seen, kept, curr, rest);
          prev, kept := curr, kept + [curr];
        }
        seen, rest := seen + [curr], rest[1..];
        curr := next;
      }
      CutDone(tasks, sleepHead, kept, curr, rest);
      assert seen == old(sleeping) && kept + rest == kept;
      sleeping := kept;
    }

    lemma Sleeps(h: Tasks, ready0: seq<nat>, sleeping0: seq<nat>, now: nat, seen: seq<nat>, kept: seq<nat>, curr: nat,
                 rest: seq<nat>)
      requires Waking(h, ready0, sleeping0, now, seen, kept, curr, rest) && curr != 0 && curr in tasks && curr in h
      requires rest != [] && rest[0] == curr && h[curr].val.until > now
      ensures Waking(h, ready0, sleeping0, now, seen + [curr], kept + [curr], tasks[curr].next, rest[1..])
      ensures Last(kept + [curr]) == curr
    {
      hide Seg, Cut, Due, NotDue, Woken;
      DueSnoc(h, seen, curr, now);
      CutAdvance(tasks, sleepHead, kept, curr, rest, tasks[curr].val);
      assert tasks[curr := tasks[curr].(val := tasks[curr].val)] == tasks;
      assert rest == [curr] + rest[1..] && seen + [curr] + rest[1..] == seen + rest;
      assert Due(h, seen, now) + [] == Due(h, seen, now);
    }

    // One task moves from the sleep list to the end of the ready queue.
    method Wake(ghost h: Tasks, ghost ready0: seq<nat>, ghost sleeping0: seq<nat>, now: nat, ghost seen: seq<nat>,
                ghost kept: seq<nat>, curr: nat, ghost rest: seq<nat>, prev: nat, next: nat)
      requires Waking(h, ready0, sleeping0, now, seen, kept, curr, rest) && curr != 0 && curr in tasks && curr in h
      requires rest != [] && rest[0] == curr && h[curr].val.until <= now && prev == Last(kept)
      requires next == tasks[curr].next && tasks[curr].val == h[curr].val
      modifies this`tasks, this`head, this`tail, this`sleepHead, this`sleepCount, this`ready
      ensures Waking(h, ready0, sleeping0, now, seen + [curr], kept, next, rest[1..])
    {
      hide Seg, Cut, Due, NotDue, Woken, WokenCells;
      DueSnoc(h, seen, curr, now);
      Moved(tasks, head, ready, sleepHead, kept, curr, rest);
      WokenMore(h, tasks, Due(h, seen, now), curr, tail, prev, next);
      assert seen + [curr] + rest[1..] == seen + rest && ready + [curr] == ready0 + (Due(h, seen, now) + [curr]);
      Relink(curr, prev, next);
      sleepCount := sleepCount - 1;
      ready := ready + [curr];
    }

    // The links of that move.
    method Relink(curr: nat, prev: nat, next: nat)
      requires curr in tasks && (head == 0 <==> tail == 0)
      requires (tail != 0 ==> tail in tasks) && (prev != 0 ==> prev in tasks)
      modifies this`tasks, this`head, this`tail, this`sleepHead
      ensures tasks == WokenCells(old(tasks), curr, old(tail), prev, next)
      ensures head == (if old(head) == 0 then curr else old(head)) && tail == curr
      ensures sleepHead == if prev == 0 then next else old(sleepHead)
    {
      tasks := tasks[curr := Cell(tasks[curr].val.(state := Ready, until := 0), 0)];
      if head == 0 {
        head, tail := curr, curr;
      } else {
        tasks := tasks[tail := tasks[tail].(next := curr)];
        tail := curr;
      }
      if prev != 0 {
        tasks := tasks[prev := tasks[prev].(next := next)];
      } else {
        sleepHead := next;
      }
    }
  }

  // The woken tasks are ready; the others are as they were.
  ghost predicate Woken(h: Tasks, h': Tasks, ts: seq<nat>) {
    forall t :: t in h && t in h' ==> h'[t].val == if t in ts then h[t].val.(state := Ready, until := 0) else h[t].val
  }

  lemma StillIdle(h: Tasks, h': Tasks, ts: seq<nat>, t: nat)
    requires Woken(h, h', ts) && t in h && t in h'
    ensures h'[t].val.idle == h[t].val.idle
  {
  }

  lemma NobodyDue(h: Tasks, now: nat)
    ensures Due(h, [], now) == [] && NotDue(h, [], now) == [] && Woken(h, h, [])
  {
  }

  // What waking curr writes: its own cell, the end of the ready queue, the cell before it.
  function WokenCells(h: Tasks, curr: nat, last: nat, prev: nat, next: nat): Tasks
    requires curr in h && (last != 0 ==> last in h) && (prev != 0 ==> prev in h)
  {
    var h1 := h[curr := Cell(h[curr].val.(state := Ready, until := 0), 0)];
    var h2 := if last == 0 then h1 else h1[last := h1[last].(next := curr)];
    if prev == 0 then h2 else h2[prev := h2[prev].(next := next)]
  }

  lemma WokenMore(h: Tasks, h1: Tasks, ts: seq<nat>, curr: nat, last: nat, prev: nat, next: nat)
    requires Woken(h, h1, ts) && h1.Keys == h.Keys && curr in h && (last != 0 ==> last in h1)
    requires (prev != 0 ==> prev in h1) && h1[curr].val == h[curr].val
    ensures Woken(h, WokenCells(h1, curr, last, prev, next), ts + [curr])
    ensures WokenCells(h1, curr, last, prev, next).Keys == h.Keys
  {
  }

  lemma Moved(h: Tasks, head: nat, ready: seq<nat>, sleepHead: nat, kept: seq<nat>, curr: nat, rest: seq<nat>)
    requires Seg(h, head, ready, 0) && Cut(h, sleepHead, kept, curr, rest) && rest != [] && rest[0] == curr && curr != 0
    requires curr in h
    requires forall t :: t in ready ==> t !in kept && t !in rest
    ensures (head == 0 <==> ready == []) && (Last(ready) != 0 ==> Last(ready) in h)
    ensures (Last(kept) != 0 ==> Last(kept) in h)
    ensures (Last(ready) == 0 <==> ready == []) && (Last(kept) == 0 <==> kept == [])
    ensures var next := h[curr].next;
            var h' := WokenCells(h, curr, Last(ready), Last(kept), next);
            && Seg(h', if ready == [] then curr else head, ready + [curr], 0)
            && Cut(h', if kept == [] then next else sleepHead, kept, next, rest[1..])
            && (forall t :: t in ready + [curr] ==> t !in kept && t !in rest[1..])
            && forall t :: t in rest[1..] ==> t in h && h'[t].val == h[t].val
  {
    SegIn(h, head, ready, 0);
    SegIn(h, sleepHead, kept, curr);
    SegIn(h, curr, rest, 0);
    var next := h[curr].next;
    var h' := WokenCells(h, curr, Last(ready), Last(kept), next);
    assert ready != [] ==> Last(ready) in ready;
    assert kept != [] ==> Last(kept) in kept;
    assert curr in rest && curr !in rest[1..] && forall t :: t in rest[1..] ==> t in rest;
    if kept != [] { SegRelink(h, h', sleepHead, kept, curr, next); }
    SegFrame(h, h', next, rest[1..], 0);
    if ready != [] {
      SegRelink(h, h', head, ready, 0, curr);
      SegSnoc(h', head, ready, curr);
    } else {
      assert [] + [curr] == [curr] && [curr][1..] == [];
    }
  }

  lemma Appended(h: Tasks, head: nat, ps: seq<nat>, t: nat)
    requires Seg(h, head, ps, 0) && t != 0 && t in h && t !in ps
    ensures head == 0 <==> ps == []
    ensures ps != [] ==> Last(ps) in h && Last(ps) != t
    ensures var h1 := h[t := h[t].(next := 0)];
            if ps == [] then Seg(h1, t, [t], 0) else Seg(h1[Last(ps) := h1[Last(ps)].(next := t)], head, ps + [t], 0)
  {
    SegIn(h, head, ps, 0);
    var h1 := h[t := h[t].(next := 0)];
    if ps != [] {
      assert Last(ps) in ps;
      var h2 := h1[Last(ps) := h1[Last(ps)].(next := t)];
      SegRelink(h, h2, head, ps, 0, t);
      SegSnoc(h2, head, ps, t);
    }
  }
}
