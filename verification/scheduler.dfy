/** The round-robin scheduler with load balancing of kernel/kern/rr-sched.c, on one processor: three queues,
    five counters, and the state of each thread. */
module RrScheduler {
  import opened Collections

  const RR_QUANTUM: nat := 4

  datatype ThreadType = PTHREAD | KTHREAD | TH_IDLE

  datatype ThreadState = S_CREATE | S_USR | S_KERNEL | S_READY | S_WAIT | S_DEAD

  datatype Thread = Thread(kind: ThreadType, state: ThreadState, quantum: nat, boostedPrio: nat, forcedYield: bool,
                           exported: bool, imported: bool, canMigrate: bool, needToMigrate: bool)

  type Threads = map<nat, Thread>

  datatype Op =
    | Sleep
    | Exit
    | EnterKernel
    | Wakeup(t: nat)
    | AddCreated(t: nat, x: Thread)
    | Schedule
    | LoadBalance

  /** The thread waits for the processor. */
  predicate Runnable(t: Thread)
  {
    t.state == S_READY || t.state == S_CREATE
  }

  /** Every thread that waits for the processor is in exactly one queue, of its kind, and no other is in any. */
  ghost predicate Queued(threads: Threads, k: seq<nat>, r: seq<nat>, m: seq<nat>)
  {
    && Apart(k, r, m)
    && (forall t :: t in k ==> t in threads && threads[t].kind == KTHREAD)
    && (forall t :: t in r ==> t in threads && threads[t].kind == PTHREAD)
    && (forall t :: t in m ==> t in threads && threads[t].kind == PTHREAD)
    && (forall t :: t in threads ==> (Runnable(threads[t]) <==> t in k || t in r || t in m))
  }

  /** One thread changes, its kind and its need for the processor do not. */
  lemma Touch(threads: Threads, k: seq<nat>, r: seq<nat>, m: seq<nat>, t: nat, x: Thread)
    requires Queued(threads, k, r, m) && t in threads
    requires x.kind == threads[t].kind && Runnable(x) == Runnable(threads[t])
    ensures Queued(threads[t := x], k, r, m)
  {
    hide Apart;
  }

  /** A thread joins a queue, at the front or at the end. */
  function Joined(q: seq<nat>, t: nat, front: bool): (r: seq<nat>)
    ensures |r| == |q| + 1
  {
    if front then [t] + q else q + [t]
  }

  /** A thread starts to wait for the processor. */
  lemma EnterKernelQueue(threads: Threads, k: seq<nat>, r: seq<nat>, m: seq<nat>, t: nat, x: Thread)
    requires Queued(threads, k, r, m) && Runnable(x) && x.kind == KTHREAD
    requires t in threads ==> !Runnable(threads[t]) && threads[t].kind == x.kind
    ensures Queued(threads[t := x], Joined(k, t, false), r, m)
  {
    ApartAdd(k, r, m, t);
    hide Apart;
  }

  lemma EnterUserQueue(threads: Threads, k: seq<nat>, r: seq<nat>, m: seq<nat>, t: nat, x: Thread, front: bool)
    requires Queued(threads, k, r, m) && Runnable(x) && x.kind == PTHREAD
    requires t in threads ==> !Runnable(threads[t]) && threads[t].kind == x.kind
    ensures Queued(threads[t := x], k, Joined(r, t, front), m)
  {
    ApartRotate(k, r, m);
    ApartAdd(r, m, k, t);
    ApartRotate(Joined(r, t, front), m, k);
    hide Apart;
  }

  /** The first thread of a queue gets the processor. */
  lemma LeaveKernelQueue(threads: Threads, k: seq<nat>, r: seq<nat>, m: seq<nat>, x: Thread)
    requires Queued(threads, k, r, m) && k != [] && x.kind == KTHREAD && !Runnable(x)
    ensures k[0] in threads && threads[k[0]].kind == KTHREAD && Queued(threads[k[0] := x], k[1..], r, m)
  {
    ApartFirst(k, r, m);
    Dequeue(k);
    hide Apart;
  }

  lemma LeaveUserQueue(threads: Threads, k: seq<nat>, r: seq<nat>, m: seq<nat>, x: Thread)
    requires Queued(threads, k, r, m) && r != [] && x.kind == PTHREAD && !Runnable(x)
    ensures r[0] in threads && threads[r[0]].kind == PTHREAD && Queued(threads[r[0] := x], k, r[1..], m)
  {
    ApartRotate(k, r, m);
    ApartFirst(r, m, k);
    ApartRotate(r[1..], m, k);
    Dequeue(r);
    hide Apart;
  }

  lemma LeaveMigrateQueue(threads: Threads, k: seq<nat>, r: seq<nat>, m: seq<nat>, x: Thread)
    requires Queued(threads, k, r, m) && m != [] && x.kind == PTHREAD && !Runnable(x)
    ensures m[0] in threads && threads[m[0]].kind == PTHREAD && Queued(threads[m[0] := x], k, r, m[1..])
  {
    ApartRotate(k, r, m);
    ApartFirst(m, k, r);
    ApartRotate(m[1..], k, r);
    Dequeue(m);
    hide Apart;
  }

  lemma QueueKinds(threads: Threads, k: seq<nat>, r: seq<nat>, m: seq<nat>)
    requires Queued(threads, k, r, m)
    ensures k != [] ==> k[0] in threads && threads[k[0]].kind == KTHREAD
    ensures r != [] ==> r[0] in threads && threads[r[0]].kind == PTHREAD
    ensures m != [] ==> m[0] in threads && threads[m[0]].kind == PTHREAD
  {
  }

  /** A user thread moves to the queue of the threads to migrate. */
  lemma Move(threads: Threads, k: seq<nat>, r: seq<nat>, m: seq<nat>, t: nat)
    requires Queued(threads, k, r, m) && t in r
    ensures Queued(threads, k, Without(r, t), m + [t])
  {
    ApartRotate(k, r, m);
    ApartCut(r, m, k, t);
    ApartRotate(Without(r, t), m, k);
    ApartAdd(m, k, Without(r, t), t);
    ApartRotate(m + [t], k, Without(r, t));
    hide Apart, Without;
  }

  // ---------------------------------------------------------------- fairness

  /** The queue of user threads after an operation, the thread it took from its front, and the thread that yielded by
      force and was put in front before that, if any. */
  datatype Turn = Turn(runnable: seq<nat>, served: Option<nat>, pushed: Option<nat>)

  function Fronted(q: seq<nat>, pushed: Option<nat>): seq<nat>
  {
    if pushed.Some? then [pushed.value] + q else q
  }

  /** Threads join at the end, or in front by force; they leave at the front when served, or to migrate. */
  ghost predicate Advances(before: seq<nat>, turn: Turn)
  {
    match turn.served
    case Some(x) => Fronted(before, turn.pushed) <= [x] + turn.runnable
    case None =>
      Fronted(before, turn.pushed) <= turn.runnable || (turn.pushed.None? && SetAsideFrom(before, turn.runnable))
  }

  /** One thread has left to migrate. */
  ghost predicate SetAsideFrom(before: seq<nat>, after: seq<nat>)
  {
    exists v :: v in before && after == Without(before, v)
  }

  /** A run of the scheduler, operation by operation. `RrSched.Run` produces such runs. */
  ghost predicate TurnsOf(run: seq<Turn>)
  {
    run != [] && forall i :: 0 <= i < |run| - 1 ==> Advances(run[i].runnable, run[i + 1]) && NoDup(run[i].runnable)
  }

  lemma TurnsMore(run: seq<Turn>, turn: Turn, queue: seq<nat>)
    requires TurnsOf(run) && queue == run[|run| - 1].runnable && Advances(queue, turn) && NoDup(queue)
    ensures TurnsOf(run + [turn])
  {
    hide Advances, NoDup;
  }

  /** The threads served from the queue after the first state of the run. */
  function ServedIn(run: seq<Turn>): nat
  {
    if |run| <= 1 then 0 else ServedIn(run[..|run| - 1]) + if run[|run| - 1].served.Some? then 1 else 0
  }

  /** The yields by force in the run. */
  function PushedIn(run: seq<Turn>): nat
  {
    if |run| <= 1 then 0 else PushedIn(run[..|run| - 1]) + if run[|run| - 1].pushed.Some? then 1 else 0
  }

  /** The thread is in the queue, at position `p` or before. */
  ghost predicate Within(q: seq<nat>, t: nat, p: int)
  {
    exists i :: 0 <= i < |q| && i <= p && q[i] == t
  }

  lemma {:induction false} CutCloser(q: seq<nat>, v: nat, i: nat)
    requires i < |q| && q[i] != v
    ensures Within(Without(q, v), q[i], i)
  {
    if q[0] == v {
      assert q[1..][i - 1] == q[i];
    } else if i == 0 {
      assert Without(q, v)[0] == q[0];
    } else {
      CutCloser(q[1..], v, i - 1);
      var j :| 0 <= j < |Without(q[1..], v)| && j <= i - 1 && Without(q[1..], v)[j] == q[i];
      assert Without(q, v)[j + 1] == q[i];
    }
  }

  lemma AdvancesCloser(before: seq<nat>, turn: Turn, t: nat, p: int)
    requires Advances(before, turn) && Within(before, t, p) && turn.served != Some(t) && NoDup(before)
    ensures var q := p + (if turn.pushed.Some? then 1 else 0) - (if turn.served.Some? then 1 else 0);
      Within(turn.runnable, t, q) || (turn.served.None? && turn.runnable == Without(before, t))
  {
    var i :| 0 <= i < |before| && i <= p && before[i] == t;
    var j := if turn.pushed.Some? then i + 1 else i;
    assert Fronted(before, turn.pushed)[j] == t;
    match turn.served
    case Some(x) =>
      assert ([x] + turn.runnable)[j] == t;
      assert turn.runnable[j - 1] == t;
    case None =>
      if Fronted(before, turn.pushed) <= turn.runnable {
        assert turn.runnable[j] == t;
      } else {
        var v :| v in before && turn.runnable == Without(before, v);
        if v != t {
          CutCloser(before, v, i);
        }
      }
  }

  lemma JoinAdvances(q: seq<nat>, t: nat)
    ensures Advances(q, Turn(q, None, None)) && Advances(q, Turn(q + [t], None, None))
  {
  }

  ghost predicate WasServed(run: seq<Turn>, t: nat)
  {
    exists i :: 0 < i < |run| && run[i].served == Some(t)
  }

  ghost predicate WasSetAside(run: seq<Turn>, t: nat)
  {
    exists i :: 0 < i < |run| && run[i].served.None? && run[i].runnable == Without(run[i - 1].runnable, t)
  }

  /** The thread that was at position `p` at first has been served, or set aside to migrate, or has moved up by one for
      every thread served and back by one for every yield by force. */
  ghost predicate FairTo(run: seq<Turn>, t: nat, p: int)
    requires run != []
  {
    WasServed(run, t) || WasSetAside(run, t) || Within(run[|run| - 1].runnable, t, p + PushedIn(run) - ServedIn(run))
  }

  lemma Longer(run: seq<Turn>, t: nat)
    requires run != []
    ensures WasServed(run[..|run| - 1], t) ==> WasServed(run, t)
    ensures WasSetAside(run[..|run| - 1], t) ==> WasSetAside(run, t)
  {
    var front := run[..|run| - 1];
    if i :| 0 < i < |front| && front[i].served == Some(t) {
      assert run[i].served == Some(t);
    }
    if i :| 0 < i < |front| && front[i].served.None? && front[i].runnable == Without(front[i - 1].runnable, t) {
      assert run[i].served.None? && run[i].runnable == Without(run[i - 1].runnable, t);
    }
  }

  /** Fairness: over any run a user thread at position `p` of the queue waits for at most `p` threads served from it,
      and one more for each yield by force. */
  lemma {:induction false} Fair(run: seq<Turn>, t: nat, p: int)
    requires TurnsOf(run) && Within(run[0].runnable, t, p)
    ensures FairTo(run, t, p)
    decreases |run|
  {
    if |run| > 1 {
      var n := |run| - 1;
      var front := run[..n];
      Fair(front, t, p);
      Longer(run, t);
      assert Advances(run[n - 1].runnable, run[n]) && NoDup(run[n - 1].runnable);
      if run[n].served == Some(t) {
        assert WasServed(run, t);
      } else if !WasServed(front, t) && !WasSetAside(front, t) {
        AdvancesCloser(run[n - 1].runnable, run[n], t, p + PushedIn(front) - ServedIn(front));
        assert run[n].served.None? && run[n].runnable == Without(run[n - 1].runnable, t) ==> WasSetAside(run, t);
      }
      hide Advances, NoDup, Without, Within, WasServed, WasSetAside;
    }
  }

  /** So a thread still in the queue has let at most that many go first. */
  lemma WaitBound(run: seq<Turn>, t: nat, p: int)
    requires run != [] && FairTo(run, t, p) && !WasServed(run, t) && !WasSetAside(run, t)
    ensures ServedIn(run) <= p + PushedIn(run)
  {
  }

  // ---------------------------------------------------------------- the scheduler

  /** The queues when the current thread, if it can go on, has been put back: a user thread that yields by
      force goes first, any other thread last. */
  function Back(this_: Thread, me: nat, k: seq<nat>, r: seq<nat>): (seq<nat>, seq<nat>)
  {
    if this_.state != S_KERNEL || this_.kind == TH_IDLE then (k, r)
    else if this_.kind == KTHREAD then (Joined(k, me, false), r)
    else (k, Joined(r, me, this_.forcedYield))
  }

  /** What becomes of the current thread y that was x: with the processor taken from it in the kernel it is ready, and
      unless a user thread yields by force, what is left of its quantum is added to its boosted priority, the quantum is
      renewed, and a user thread is no longer to migrate. Nothing else changes. */
  ghost predicate Retired(x: Thread, y: Thread)
  {
    && y.kind == x.kind && y.exported == x.exported && y.imported == x.imported && y.canMigrate == x.canMigrate
    && y.forcedYield == x.forcedYield
    && (if x.kind == TH_IDLE || x.state != S_KERNEL then y == x
        else if x.kind == PTHREAD && x.forcedYield then
          y.state == S_READY && y.boostedPrio == x.boostedPrio && y.quantum == x.quantum &&
            y.needToMigrate == x.needToMigrate
        else
          y.state == S_READY && y.boostedPrio == x.boostedPrio + x.quantum && y.quantum == RR_QUANTUM &&
            y.needToMigrate == (x.kind == KTHREAD && x.needToMigrate))
  }

  function Requeued(x: Thread): (y: Thread)
    ensures Retired(x, y)
  {
    if x.kind == TH_IDLE || x.state != S_KERNEL then x
    else if x.kind == KTHREAD then
      x.(state := S_READY, boostedPrio := x.boostedPrio + x.quantum, quantum := RR_QUANTUM)
    else if x.forcedYield then x.(state := S_READY)
    else
      x.(state := S_READY, boostedPrio := x.boostedPrio + x.quantum, needToMigrate := false, quantum := RR_QUANTUM)
  }

  /** The threads when one more has got the processor, if any. */
  function Switched(threads: Threads, elected: Option<nat>): Threads
  {
    if elected.Some? && elected.value in threads then threads[elected.value := Dispatched(threads[elected.value])]
    else threads
  }

  /** The current thread is to yield by force. */
  function Forced(threads: Threads, current: nat): (r: Threads)
    requires current in threads
    ensures r.Keys == threads.Keys && r[current].forcedYield
    ensures forall t :: t in threads ==> r[t].(forcedYield := threads[t].forcedYield) == threads[t]
    ensures forall t :: t in threads && t != current ==> r[t] == threads[t]
  {
    threads[current := threads[current].(forcedYield := true)]
  }

  /** The current thread, if it goes in front of its queue. */
  function Pushed(this_: Thread, me: nat): Option<nat>
  {
    if this_.state == S_KERNEL && this_.kind == PTHREAD && this_.forcedYield then Some(me) else None
  }

  /** Kernel threads first, then threads to migrate, then user threads. */
  function First(k: seq<nat>, m: seq<nat>, r: seq<nat>): Option<nat>
  {
    if k != [] then Some(k[0]) else if m != [] then Some(m[0]) else if r != [] then Some(r[0]) else None
  }

  /** What a turn of the scheduler does to the queue of user threads, and when it finds none to run. */
  lemma TurnTaken(x: Thread, me: nat, k: seq<nat>, m: seq<nat>, r: seq<nat>)
    ensures var (k', r') := Back(x, me, k, r);
      var elected := First(k', m, r');
      && Advances(r, Turn(if k' == [] && m == [] && r' != [] then r'[1..] else r',
                          if k' == [] && m == [] then elected else None, Pushed(x, me)))
      && (elected.None? <==> k == [] && r == [] && m == [] && (x.kind == TH_IDLE || x.state != S_KERNEL))
  {
  }

  /** Only the current thread and the idle thread are neither queued, waiting nor dead. */
  ghost predicate Roles(threads: Threads, current: nat, idle: nat)
  {
    && current in threads && idle in threads && threads[idle].state == S_KERNEL
    && (forall t :: t in threads ==> (threads[t].kind == TH_IDLE <==> t == idle))
    && (forall t :: t in threads && Running(threads[t]) ==> t == current || t == idle)
  }

  predicate Running(t: Thread)
  {
    t.state == S_USR || t.state == S_KERNEL
  }

  lemma RolesSet(threads: Threads, current: nat, idle: nat, t: nat, x: Thread)
    requires Roles(threads, current, idle)
    requires t in threads ==> x.kind == threads[t].kind
    requires t !in threads ==> x.kind != TH_IDLE
    requires t == idle ==> x.state == S_KERNEL
    requires Running(x) ==> t == current || t == idle
    ensures Roles(threads[t := x], current, idle)
  {
  }

  lemma EntersRole(threads: Threads, current: nat, idle: nat, t: nat, x: Thread)
    requires Roles(threads, current, idle) && Runnable(x) && x.kind != TH_IDLE
    requires t in threads ==> x.kind == threads[t].kind
    ensures Roles(threads[t := x], current, idle)
  {
  }

  /** The state `schedule` gives to the thread it switches to. */
  function Dispatched(t: Thread): (r: Thread)
    ensures Running(r) && !Runnable(r) && !r.forcedYield
    ensures r.state == S_USR <==> t.state == S_CREATE && t.kind == PTHREAD
    ensures r.(state := t.state, forcedYield := t.forcedYield) == t
  {
    t.(state := if t.state == S_CREATE && t.kind == PTHREAD then S_USR else S_KERNEL, forcedYield := false)
  }

  lemma DispatchedRole(threads: Threads, current: nat, idle: nat, e: nat)
    requires Roles(threads, current, idle) && (Running(threads[current]) ==> current == idle)
    requires e in threads && threads[e].kind != TH_IDLE
    ensures Roles(threads[e := Dispatched(threads[e])], e, idle)
  {
  }

  /** The load balancer may move the thread to another processor. */
  predicate Movable(t: Thread)
  {
    !t.exported && t.canMigrate
  }

  /** What one visit of the load balancer does to a thread. */
  function Visited(t: Thread): (r: Thread)
    ensures 2 * r.boostedPrio <= t.boostedPrio <= 2 * r.boostedPrio + 1 && !r.needToMigrate
    ensures r.(boostedPrio := t.boostedPrio, needToMigrate := t.needToMigrate) == t
  {
    t.(boostedPrio := t.boostedPrio / 2, needToMigrate := false)
  }

  /** The threads when the balancer has visited the current one and the first `n` of the queue. */
  ghost predicate VisitedUpTo(before: Threads, after: Threads, me: nat, r: seq<nat>, n: nat)
    requires n <= |r|
  {
    && after.Keys == before.Keys
    && forall x :: x in before ==> after[x] == if x == me || (x in r[..n] && Movable(before[x])) then Visited(before[x])
       else before[x]
  }

  /** The threads after the balancer: the current one and those in the queue that can move have been visited, and one of
      them may have been told to migrate. */
  ghost predicate Balanced(before: Threads, after: Threads, me: nat, r: seq<nat>, told: Option<nat>)
  {
    && after.Keys == before.Keys
    && forall x :: x in before ==>
         var y := if x == me || (x in r && Movable(before[x])) then Visited(before[x]) else before[x];
         after[x] == if told == Some(x) then y.(needToMigrate := true) else y
  }

  lemma VisitedAll(before: Threads, after: Threads, me: nat, r: seq<nat>)
    requires VisitedUpTo(before, after, me, r, |r|)
    ensures Balanced(before, after, me, r, None)
    ensures forall t :: t in after ==> Balanced(before, after[t := after[t].(needToMigrate := true)], me, r, Some(t))
  {
    assert r[..|r|] == r;
  }

  lemma VisitNext(before: Threads, after: Threads, me: nat, r: seq<nat>, n: nat)
    requires n < |r| && NoDup(r) && me !in r && r[n] in before && VisitedUpTo(before, after, me, r, n)
    ensures r[n] in after && after[r[n]] == before[r[n]]
    ensures var after' := if Movable(before[r[n]]) then after[r[n] := Visited(before[r[n]])] else after;
      VisitedUpTo(before, after', me, r, n + 1)
  {
    assert r[..n + 1] == r[..n] + [r[n]];
    assert r[n] !in r[..n];
  }

  lemma VisitKeeps(before: Threads, after: Threads, me: nat, r: seq<nat>)
    requires VisitedUpTo(before, after, me, r, |r|)
    ensures after.Keys == before.Keys
    ensures forall x :: x in before ==> after[x].kind == before[x].kind && after[x].state == before[x].state
  {
  }

  /** The balancer keeps kinds and states, so it keeps the queues right. */
  lemma SameShape(before: Threads, after: Threads, k: seq<nat>, r: seq<nat>, m: seq<nat>, current: nat, idle: nat)
    requires Queued(before, k, r, m) && Roles(before, current, idle) && after.Keys == before.Keys
    requires forall x :: x in before ==> after[x].kind == before[x].kind && after[x].state == before[x].state
    ensures Queued(after, k, r, m) && Roles(after, current, idle)
  {
    hide Apart;
  }

  /** The best candidate among the current thread and the first `n` of the queue: the first of the highest
      priority that can move, with `max` its priority; -1 if none can. */
  ghost predicate Best(threads: Threads, me: nat, r: seq<nat>, n: nat, victim: nat, max: int)
    requires n <= |r| && me in threads && forall i :: 0 <= i < |r| ==> r[i] in threads
  {
    && (forall i :: 0 <= i < n && Movable(threads[r[i]]) ==> threads[r[i]].boostedPrio <= max)
    && (Movable(threads[me]) ==> threads[me].boostedPrio <= max)
    && (victim == me ==> max == if Movable(threads[me]) then threads[me].boostedPrio else -1)
    && (victim != me ==>
      && (exists i :: 0 <= i < n && r[i] == victim && FirstBest(threads, r, i, max))
      && (Movable(threads[me]) ==> threads[me].boostedPrio < max))
  }

  /** The thread at position i can move and has that priority; those before it that can move have less. */
  ghost predicate FirstBest(threads: Threads, r: seq<nat>, i: nat, max: int)
    requires i < |r| && forall i :: 0 <= i < |r| ==> r[i] in threads
  {
    && Movable(threads[r[i]]) && threads[r[i]].boostedPrio == max
    && forall j :: 0 <= j < i && Movable(threads[r[j]]) ==> threads[r[j]].boostedPrio < max
  }

  lemma BestNext(threads: Threads, me: nat, r: seq<nat>, n: nat, victim: nat, max: int)
    requires n < |r| && me in threads && me !in r && forall i :: 0 <= i < |r| ==> r[i] in threads
    requires Best(threads, me, r, n, victim, max)
    ensures var better := Movable(threads[r[n]]) && threads[r[n]].boostedPrio > max;
      Best(threads, me, r, n + 1, if better then r[n] else victim, if better then threads[r[n]].boostedPrio else max)
  {
    if !(Movable(threads[r[n]]) && threads[r[n]].boostedPrio > max) {
      if victim != me {
        var i :| 0 <= i < n && r[i] == victim && FirstBest(threads, r, i, max);
        assert 0 <= i < n + 1;
      }
    } else {
      assert FirstBest(threads, r, n, threads[r[n]].boostedPrio);
    }
  }

  lemma BestIn(threads: Threads, me: nat, r: seq<nat>, victim: nat, max: int)
    requires me in threads && (forall i :: 0 <= i < |r| ==> r[i] in threads) && Best(threads, me, r, |r|, victim, max)
    ensures victim != me ==> victim in r && max >= 0 && !threads[victim].exported && threads[victim].canMigrate
    ensures forall x :: x in r && !threads[x].exported && threads[x].canMigrate ==> threads[x].boostedPrio <= max
  {
  }

  lemma QueueKnown(threads: Threads, k: seq<nat>, r: seq<nat>, m: seq<nat>)
    requires Queued(threads, k, r, m)
    ensures NoDup(r) && forall i :: 0 <= i < |r| ==> r[i] in threads
    ensures forall t :: t in threads && Running(threads[t]) ==> t !in r
  {
  }

  /** The scan of `rr_sched_load_balance`: every thread that can move is visited, and the best one found. */
  method Scan(threads: Threads, me: nat, r: seq<nat>) returns (visited: Threads, victim: nat, max: int)
    requires me in threads && me !in r && NoDup(r) && forall i :: 0 <= i < |r| ==> r[i] in threads
    ensures VisitedUpTo(threads, visited, me, r, |r|)
    ensures Best(threads, me, r, |r|, victim, max)
  {
    victim := me;
    max := if Movable(threads[me]) then threads[me].boostedPrio else -1;
    visited := threads[me := Visited(threads[me])];
    var i := 0;
    while i < |r|
      invariant 0 <= i <= |r|
      invariant VisitedUpTo(threads, visited, me, r, i)
      invariant Best(threads, me, r, i, victim, max)
    {
      hide VisitedUpTo, Visited, Best, NoDup;
      var thread := r[i];
      VisitNext(threads, visited, me, r, i);
      BestNext(threads, me, r, i, victim, max);
      if Movable(visited[thread]) {
        if visited[thread].boostedPrio > max {
          victim := thread;
          max := visited[thread].boostedPrio;
        }
        visited := visited[thread := Visited(visited[thread])];
      }
      i := i + 1;
    }
  }

  /** The boosted priority thread x has once the current thread has given up the processor: what is left of the quantum
      counts, unless a user thread yields by force. */
  function PrioBack(threads: Threads, current: nat, x: nat): nat
    requires x in threads
  {
    var t := threads[x];
    if x != current || t.kind == TH_IDLE || t.state != S_KERNEL || (t.kind == PTHREAD && t.forcedYield)
    then t.boostedPrio else t.boostedPrio + t.quantum
  }

  /** The best candidate to migrate after a turn of the scheduler, by the values from before it: `current` was running,
      `me` runs now, and the queue is as it is now. */
  ghost predicate BestBefore(threads: Threads, current: nat, me: nat, queue: seq<nat>, victim: nat)
    requires me in threads && forall i :: 0 <= i < |queue| ==> queue[i] in threads
  {
    if victim == me then
      forall j :: 0 <= j < |queue| && Movable(threads[queue[j]]) ==>
        Movable(threads[me]) && PrioBack(threads, current, queue[j]) <= PrioBack(threads, current, me)
    else
      exists i :: 0 <= i < |queue| && queue[i] == victim && BestAt(threads, current, me, queue, i)
  }

  ghost predicate BestAt(threads: Threads, current: nat, me: nat, queue: seq<nat>, i: nat)
    requires me in threads && i < |queue| && forall i :: 0 <= i < |queue| ==> queue[i] in threads
  {
    var best := PrioBack(threads, current, queue[i]);
    && Movable(threads[queue[i]]) && (Movable(threads[me]) ==> PrioBack(threads, current, me) < best)
    && (forall j :: 0 <= j < |queue| && Movable(threads[queue[j]]) ==> PrioBack(threads, current, queue[j]) <= best)
    && (forall j :: 0 <= j < i && Movable(threads[queue[j]]) ==> PrioBack(threads, current, queue[j]) < best)
  }

  lemma SwitchedPrio(threads: Threads, current: nat, elected: Option<nat>, x: nat)
    requires current in threads && x in threads
    ensures var after := Switched(threads[current := Requeued(threads[current])], elected);
      x in after && after[x].boostedPrio == PrioBack(threads, current, x) && Movable(after[x]) == Movable(threads[x])
  {
  }

  lemma BestThen(threads: Threads, current: nat, elected: Option<nat>, me: nat, queue: seq<nat>, victim: nat, max: int)
    requires current in threads && me in threads && forall i :: 0 <= i < |queue| ==> queue[i] in threads
    requires var after := Switched(threads[current := Requeued(threads[current])], elected);
      && me in after && (forall i :: 0 <= i < |queue| ==> queue[i] in after)
      && Best(after, me, queue, |queue|, victim, max)
    ensures BestBefore(threads, current, me, queue, victim)
  {
    var after := Switched(threads[current := Requeued(threads[current])], elected);
    forall x | x in threads
      ensures after[x].boostedPrio == PrioBack(threads, current, x) && Movable(after[x]) == Movable(threads[x])
    {
      SwitchedPrio(threads, current, elected, x);
    }
    hide Switched, Requeued, PrioBack, Movable;
    if victim != me {
      var i :| 0 <= i < |queue| && queue[i] == victim && FirstBest(after, queue, i, max);
      assert BestAt(threads, current, me, queue, i);
    }
  }

  // ---------------------------------------------------------------- operations on values

  datatype View = View(threads: Threads, current: nat, kthreads: seq<nat>, runnable: seq<nat>, migrate: seq<nat>)

  /** The operation is possible in this state. */
  ghost predicate Possible(v: View, idle: nat, op: Op)
    requires v.current in v.threads
  {
    var state := v.threads[v.current].state;
    match op
    case Sleep => v.current != idle && state == S_KERNEL
    case Exit => v.current != idle && state == S_KERNEL
    case EnterKernel => state == S_USR
    case Wakeup(t) => t in v.threads && t != idle && v.threads[t].state in {S_WAIT, S_READY}
    case AddCreated(t, x) => t !in v.threads && Runnable(x) && x.kind != TH_IDLE
    case Schedule => state != S_USR
    case LoadBalance => Running(v.threads[v.current])
  }

  ghost function WithState(v: View, t: nat, state: ThreadState): View
    requires t in v.threads
  {
    v.(threads := v.threads[t := v.threads[t].(state := state)])
  }

  /** What a possible operation does. */
  ghost predicate Does(v: View, idle: nat, op: Op, w: View)
    requires v.current in v.threads && Possible(v, idle, op)
  {
    match op
    case Sleep => w == WithState(v, v.current, S_WAIT)
    case Exit => w == WithState(v, v.current, S_DEAD)
    case EnterKernel => w == WithState(v, v.current, S_KERNEL)
    case Wakeup(t) => Wakes(v, t, w)
    case AddCreated(t, x) => Adds(v, t, x, w)
    case Schedule => Schedules(v, idle, w)
    case LoadBalance => Balances(v, w)
  }

  ghost predicate Wakes(v: View, t: nat, w: View)
    requires v.current in v.threads && t in v.threads
  {
    var ready := WithState(v, t, S_READY);
    if v.threads[t].state == S_READY then w == v
    else if v.threads[t].kind == KTHREAD then
      w == ready.(kthreads := v.kthreads + [t], threads := Forced(ready.threads, v.current))
    else w == ready.(runnable := v.runnable + [t])
  }

  ghost predicate Adds(v: View, t: nat, x: Thread, w: View)
  {
    if x.kind == KTHREAD then w == v.(threads := v.threads[t := x], kthreads := v.kthreads + [t])
    else
      var prio := if x.imported then 3 * RR_QUANTUM else RR_QUANTUM;
      w == v.(threads := v.threads[t := x.(boostedPrio := prio, imported := false)], runnable := v.runnable + [t])
  }

  ghost predicate Schedules(v: View, idle: nat, w: View)
    requires v.current in v.threads
  {
    var (k, r) := Back(v.threads[v.current], v.current, v.kthreads, v.runnable);
    var m := v.migrate;
    var elected := First(k, m, r);
    w == View(Switched(v.threads[v.current := Requeued(v.threads[v.current])], elected),
              if elected.Some? then elected.value else idle,
              if k != [] then k[1..] else k,
              if k == [] && m == [] && r != [] then r[1..] else r,
              if k == [] && m != [] then m[1..] else m)
  }

  ghost predicate Balances(v: View, w: View)
    requires v.current in v.threads
  {
    && (forall i :: 0 <= i < |v.runnable| ==> v.runnable[i] in v.threads)
    && w.current == v.current && w.kthreads == v.kthreads
    && exists victim, max :: MovesAside(v, victim, max, w)
  }

  ghost predicate MovesAside(v: View, victim: nat, max: int, w: View)
    requires v.current in v.threads && forall i :: 0 <= i < |v.runnable| ==> v.runnable[i] in v.threads
  {
    var told := max >= 0 && (v.threads[v.current].kind == PTHREAD || v.runnable != []);
    && Best(v.threads, v.current, v.runnable, |v.runnable|, victim, max)
    && Balanced(v.threads, w.threads, v.current, v.runnable, if told then Some(victim) else None)
    && (if victim == v.current then w.runnable == v.runnable && w.migrate == v.migrate
        else w.runnable == Without(v.runnable, victim) && w.migrate == v.migrate + [victim])
  }

  /** An operation that is not possible changes nothing. */
  ghost predicate Follows(v: View, idle: nat, op: Op, w: View)
  {
    v.current in v.threads && if Possible(v, idle, op) then Does(v, idle, op, w) else w == v
  }

  class RrSched {
    var threads: Threads
    var current: nat
    const idle: nat
    var kthreads: seq<nat>
    var runnable: seq<nat>
    var migrate: seq<nat>
    var count: nat               // sched->count
    var kRunnable: nat           // scheduler->k_runnable
    var userRunnable: nat        // scheduler->u_runnable
    var uRunnable: nat           // rQueues->u_runnable
    var mRunnable: nat           // rQueues->m_runnable

    ghost function Seen(): View
      reads this
    {
      View(threads, current, kthreads, runnable, migrate)
    }

    ghost predicate Counted()
      reads this
    {
      && count == |kthreads| + |runnable| + |migrate|
      && kRunnable == |kthreads| && userRunnable == |runnable| + |migrate|
      && uRunnable == |runnable| && mRunnable == |migrate|
    }

    ghost predicate Valid()
      reads this
    {
      Queued(threads, kthreads, runnable, migrate) && Counted() && Roles(threads, current, idle)
    }

    /** `rr_sched_init`, with the idle thread running. */
    constructor (me: nat)
      ensures Valid() && current == idle == me && kthreads == runnable == migrate == []
      ensures threads == map[me := Thread(TH_IDLE, S_KERNEL, 0, 0, false, false, false, false, false)]
    {
      idle, current := me, me;
      threads := map[me := Thread(TH_IDLE, S_KERNEL, 0, 0, false, false, false, false, false)];
      kthreads, runnable, migrate := [], [], [];
      count, kRunnable, userRunnable, uRunnable, mRunnable := 0, 0, 0, 0, 0;
    }

    /** `rr_sleep` */
    method Sleep()
      requires Valid() && current != idle && threads[current].state == S_KERNEL
      modifies this
      ensures Valid() && threads == old(threads)[current := old(threads[current]).(state := S_WAIT)]
      ensures Advances(old(runnable), Turn(runnable, None, None))
      ensures current == old(current) && kthreads == old(kthreads)
      ensures runnable == old(runnable) && migrate == old(migrate)
    {
      var x := threads[current].(state := S_WAIT);
      Touch(threads, kthreads, runnable, migrate, current, x);
      RolesSet(threads, current, idle, current, x);
      hide Queued, Roles;
      threads := threads[current := x];
    }

    /** `rr_exit` */
    method Exit()
      requires Valid() && current != idle && threads[current].state == S_KERNEL
      modifies this
      ensures Valid() && threads == old(threads)[current := old(threads[current]).(state := S_DEAD)]
      ensures Advances(old(runnable), Turn(runnable, None, None))
      ensures current == old(current) && kthreads == old(kthreads)
      ensures runnable == old(runnable) && migrate == old(migrate)
    {
      var x := threads[current].(state := S_DEAD);
      Touch(threads, kthreads, runnable, migrate, current, x);
      RolesSet(threads, current, idle, current, x);
      hide Queued, Roles;
      threads := threads[current := x];
    }

    /** Entry into the kernel, by interrupt or system call. */
    method EnterKernel()
      requires Valid() && threads[current].state == S_USR
      modifies this
      ensures Valid() && threads == old(threads)[current := old(threads[current]).(state := S_KERNEL)]
      ensures Advances(old(runnable), Turn(runnable, None, None))
      ensures current == old(current) && kthreads == old(kthreads)
      ensures runnable == old(runnable) && migrate == old(migrate)
    {
      var x := threads[current].(state := S_KERNEL);
      Touch(threads, kthreads, runnable, migrate, current, x);
      RolesSet(threads, current, idle, current, x);
      hide Queued, Roles;
      threads := threads[current := x];
    }

    /** A kernel thread gets the end of its queue. */
    method EnqueueKernel(t: nat, x: Thread)
      requires Valid() && Runnable(x) && x.kind == KTHREAD
      requires (t in threads ==> !Runnable(threads[t]) && threads[t].kind == x.kind)
      modifies this
      ensures Valid() && threads == old(threads)[t := x] && kthreads == Joined(old(kthreads), t, false)
      ensures current == old(current) && runnable == old(runnable) && migrate == old(migrate)
    {
      hide Queued, Roles, Joined;
      EnterKernelQueue(threads, kthreads, runnable, migrate, t, x);
      EntersRole(threads, current, idle, t, x);
      threads := threads[t := x];
      kthreads := Joined(kthreads, t, false);
      count, kRunnable := count + 1, kRunnable + 1;
    }

    /** A user thread gets the front or the end of its queue. */
    method EnqueueUser(t: nat, x: Thread, front: bool)
      requires Valid() && Runnable(x) && x.kind == PTHREAD
      requires (t in threads ==> !Runnable(threads[t]) && threads[t].kind == x.kind)
      modifies this
      ensures Valid() && threads == old(threads)[t := x] && runnable == Joined(old(runnable), t, front)
      ensures current == old(current) && kthreads == old(kthreads) && migrate == old(migrate)
    {
      hide Queued, Roles, Joined;
      EnterUserQueue(threads, kthreads, runnable, migrate, t, x, front);
      EntersRole(threads, current, idle, t, x);
      threads := threads[t := x];
      runnable := Joined(runnable, t, front);
      count, uRunnable, userRunnable := count + 1, uRunnable + 1, userRunnable + 1;
    }

    /** `thread_set_forced_yield` on the current thread. */
    method ForceYield()
      requires Valid()
      modifies this`threads
      ensures Valid() && threads == old(threads)[current := old(threads[current]).(forcedYield := true)]
    {
      var y := threads[current].(forcedYield := true);
      Touch(threads, kthreads, runnable, migrate, current, y);
      RolesSet(threads, current, idle, current, y);
      hide Queued;
      threads := threads[current := y];
    }

    /** `rr_wakeup`; the thread may be the current one, on its way to sleep. */
    method Wakeup(t: nat)
      requires Valid() && t in threads && t != idle && threads[t].state in {S_WAIT, S_READY}
      modifies this
      ensures Valid() && current == old(current) && migrate == old(migrate) && threads.Keys == old(threads.Keys)
      ensures threads[t].state == S_READY
      ensures old(threads[t].state) == S_READY ==>
        threads == old(threads) && kthreads == old(kthreads) && runnable == old(runnable)
      ensures old(threads[t].state) == S_WAIT && threads[t].kind == KTHREAD ==>
        && kthreads == old(kthreads) + [t] && runnable == old(runnable)
        && threads == Forced(old(threads)[t := old(threads)[t].(state := S_READY)], current)
      ensures old(threads[t].state) == S_WAIT && threads[t].kind == PTHREAD ==>
        && runnable == old(runnable) + [t] && kthreads == old(kthreads)
        && threads == old(threads)[t := old(threads)[t].(state := S_READY)]
      ensures old(current in threads) && Wakes(old(Seen()), t, Seen())
      ensures Advances(old(runnable), Turn(runnable, None, None))
    {
      hide Queued, Counted, Advances;
      JoinAdvances(runnable, t);
      if threads[t].state == S_READY {
        return;
      }
      var x := threads[t].(state := S_READY);
      if x.kind == KTHREAD {
        EnqueueKernel(t, x);
        ForceYield();
      } else {
        EnqueueUser(t, x, false);
      }
    }

    /** `rr_add_created`, for a thread that is new here or was removed. */
    method AddCreated(t: nat, x: Thread)
      requires Valid() && t !in threads && Runnable(x) && x.kind != TH_IDLE
      modifies this
      ensures Valid() && current == old(current) && migrate == old(migrate)
      ensures threads.Keys == old(threads.Keys) + {t}
      ensures forall y :: y in old(threads) ==> threads[y] == old(threads)[y]
      ensures x.kind == KTHREAD ==> threads[t] == x
      ensures threads[t].(boostedPrio := x.boostedPrio, imported := x.imported) == x
      ensures if x.kind == KTHREAD then kthreads == old(kthreads) + [t] && runnable == old(runnable)
        else runnable == old(runnable) + [t] && kthreads == old(kthreads)
      ensures Adds(old(Seen()), t, x, Seen())
      ensures Advances(old(runnable), Turn(runnable, None, None))
      ensures x.kind == PTHREAD ==>
        threads[t].boostedPrio == (if x.imported then 3 * RR_QUANTUM else RR_QUANTUM) && !threads[t].imported
    {
      hide Queued, Counted, Roles;
      if x.kind == KTHREAD {
        EnqueueKernel(t, x);
      } else {
        EnqueueUser(t, x.(boostedPrio := if x.imported then 3 * RR_QUANTUM else RR_QUANTUM, imported := false), false);
      }
    }

    /** The first half of `rr_elect_balancing`: a current thread that can go on is put back. */
    method PutBack()
      requires Valid() && threads[current].state != S_USR
      modifies this
      ensures Valid() && current == old(current) && migrate == old(migrate) && threads.Keys == old(threads.Keys)
      ensures (kthreads, runnable) == Back(old(threads[current]), current, old(kthreads), old(runnable))
      ensures threads == old(threads)[current := Requeued(old(threads[current]))]
      ensures Running(threads[current]) ==> current == idle
      ensures old(threads[current].kind) == TH_IDLE <==> current == idle
    {
      hide Queued, Counted, Joined;
      var x := threads[current];
      assert x.kind == TH_IDLE || x.state != S_KERNEL ==> threads == threads[current := Requeued(x)];
      if x.kind != TH_IDLE && x.state == S_KERNEL {
        if x.kind == PTHREAD {
          if x.forcedYield {
            EnqueueUser(current, x.(state := S_READY), true);
          } else {
            EnqueueUser(current, x.(state := S_READY, boostedPrio := x.boostedPrio + x.quantum, needToMigrate := false,
              quantum := RR_QUANTUM), false);
          }
        } else {
          EnqueueKernel(current, x.(state := S_READY, boostedPrio := x.boostedPrio + x.quantum, quantum := RR_QUANTUM));
        }
      }
    }

    /** Taking the first thread of each queue. */
    method TakeKernel()
      requires Valid() && kthreads != [] && (Running(threads[current]) ==> current == idle)
      modifies this
      ensures Valid() && current == old(kthreads)[0] && kthreads == old(kthreads)[1..]
      ensures runnable == old(runnable) && migrate == old(migrate)
      ensures current in old(threads) && threads == old(threads)[current := Dispatched(old(threads)[current])]
    {
      hide Queued, Dispatched, Roles, Running;
      QueueKinds(threads, kthreads, runnable, migrate);
      var e := kthreads[0];
      LeaveKernelQueue(threads, kthreads, runnable, migrate, Dispatched(threads[e]));
      DispatchedRole(threads, current, idle, e);
      threads, kthreads, current := threads[e := Dispatched(threads[e])], kthreads[1..], e;
      count, kRunnable := count - 1, kRunnable - 1;
    }

    method TakeMigrate()
      requires Valid() && migrate != [] && (Running(threads[current]) ==> current == idle)
      modifies this
      ensures Valid() && current == old(migrate)[0] && kthreads == old(kthreads)
      ensures runnable == old(runnable) && migrate == old(migrate)[1..]
      ensures current in old(threads) && threads == old(threads)[current := Dispatched(old(threads)[current])]
    {
      hide Queued, Dispatched, Roles, Running;
      QueueKinds(threads, kthreads, runnable, migrate);
      var e := migrate[0];
      LeaveMigrateQueue(threads, kthreads, runnable, migrate, Dispatched(threads[e]));
      DispatchedRole(threads, current, idle, e);
      threads, migrate, current := threads[e := Dispatched(threads[e])], migrate[1..], e;
      count, userRunnable, mRunnable := count - 1, userRunnable - 1, mRunnable - 1;
    }

    method TakeUser()
      requires Valid() && runnable != [] && (Running(threads[current]) ==> current == idle)
      modifies this
      ensures Valid() && current == old(runnable)[0] && kthreads == old(kthreads)
      ensures runnable == old(runnable)[1..] && migrate == old(migrate)
      ensures current in old(threads) && threads == old(threads)[current := Dispatched(old(threads)[current])]
    {
      hide Queued, Dispatched, Roles, Running;
      QueueKinds(threads, kthreads, runnable, migrate);
      var e := runnable[0];
      LeaveUserQueue(threads, kthreads, runnable, migrate, Dispatched(threads[e]));
      DispatchedRole(threads, current, idle, e);
      threads, runnable, current := threads[e := Dispatched(threads[e])], runnable[1..], e;
      count, userRunnable, uRunnable := count - 1, userRunnable - 1, uRunnable - 1;
    }

    /** `schedule`, around `rr_elect_balancing`. The processor goes to the idle thread exactly when no thread
        can run; and unless the current thread yields by force, the user threads take turns. */
    method Schedule() returns (elected: Option<nat>)
      requires Valid() && threads[current].state != S_USR
      modifies this
      ensures Valid() && Running(threads[current]) && current == if elected.Some? then elected.value else idle
      ensures var (k, r) := Back(old(threads[current]), old(current), old(kthreads), old(runnable));
        var m := old(migrate);
        && elected == First(k, m, r)
        && kthreads == (if k != [] then k[1..] else k)
        && migrate == (if k == [] && m != [] then m[1..] else m)
        && runnable == (if k == [] && m == [] && r != [] then r[1..] else r)
        && Advances(old(runnable), Turn(runnable, if k == [] && m == [] then elected else None,
                                        Pushed(old(threads[current]), old(current))))
      ensures threads == Switched(old(threads)[old(current) := Requeued(old(threads[current]))], elected)
      ensures elected.None? <==>
        old(kthreads == [] && runnable == [] && migrate == [] &&
          (current == idle || threads[current].state != S_KERNEL))
    {
      hide Queued, Counted, Requeued, Dispatched, Retired, Advances, Back, First, Pushed;
      TurnTaken(threads[current], current, kthreads, migrate, runnable);
      PutBack();
      elected := Elect();
    }

    /** The second half of `rr_elect_balancing` and the switch in `schedule`. */
    method Elect() returns (elected: Option<nat>)
      requires Valid() && (Running(threads[current]) ==> current == idle)
      modifies this
      ensures Valid() && Running(threads[current]) && current == if elected.Some? then elected.value else idle
      ensures var k, m, r := old(kthreads), old(migrate), old(runnable);
        && elected == First(k, m, r)
        && kthreads == (if k != [] then k[1..] else k)
        && migrate == (if k == [] && m != [] then m[1..] else m)
        && runnable == (if k == [] && m == [] && r != [] then r[1..] else r)
      ensures threads == Switched(old(threads), elected)
    {
      hide Queued, Dispatched;
      if count > 0 {
        if kthreads != [] {
          TakeKernel();
        } else if migrate != [] {
          TakeMigrate();
        } else {
          TakeUser();
        }
        elected := Some(current);
      } else {
        elected := None;
        current := idle;
      }
    }

    /** The first half of `rr_sched_load_balance`. */
    method FindVictim() returns (victim: nat, max: int)
      requires Valid() && Running(threads[current])
      modifies this`threads
      ensures Valid() && VisitedUpTo(old(threads), threads, current, runnable, |runnable|)
      ensures current in threads && forall i :: 0 <= i < |runnable| ==> runnable[i] in old(threads)
      ensures Best(old(threads), current, runnable, |runnable|, victim, max)
    {
      QueueKnown(threads, kthreads, runnable, migrate);
      hide Queued, VisitedUpTo, Best;
      var visited: Threads;
      visited, victim, max := Scan(threads, current, runnable);
      VisitKeeps(threads, visited, current, runnable);
      SameShape(threads, visited, kthreads, runnable, migrate, current, idle);
      threads := visited;
    }

    /** `thread_migration_activate` */
    method ActivateMigration(t: nat)
      requires Valid() && t in threads
      modifies this`threads
      ensures Valid() && threads == old(threads)[t := old(threads)[t].(needToMigrate := true)]
    {
      var x := threads[t].(needToMigrate := true);
      Touch(threads, kthreads, runnable, migrate, t, x);
      RolesSet(threads, current, idle, t, x);
      hide Queued, Roles;
      threads := threads[t := x];
    }

    /** The victim's move to the queue of the threads to migrate. */
    method SetAside(t: nat)
      requires Valid() && t in runnable
      modifies this`runnable, this`migrate, this`mRunnable, this`uRunnable
      ensures Valid() && runnable == Without(old(runnable), t) && migrate == old(migrate) + [t]
    {
      hide Queued, Roles;
      Move(threads, kthreads, runnable, migrate, t);
      runnable, migrate := Without(runnable, t), migrate + [t];
      mRunnable, uRunnable := mRunnable + 1, uRunnable - 1;
    }

    /** `rr_sched_load_balance`: a queued user thread is set aside exactly when one that can move has a higher
        boosted priority than the current thread has, if that can move too; it is then the best one. */
    method LoadBalance() returns (victim: nat, ghost max: int)
      requires Valid() && Running(threads[current])
      modifies this
      ensures Valid() && current == old(current) && kthreads == old(kthreads)
      ensures forall i :: 0 <= i < |old(runnable)| ==> old(runnable)[i] in old(threads)
      ensures Best(old(threads), current, old(runnable), |old(runnable)|, victim, max)
      ensures victim != current ==> !old(threads)[victim].exported && old(threads)[victim].canMigrate
      ensures forall x :: x in old(runnable) && x in old(threads) ==>
        (var t := old(threads)[x]; !t.exported && t.canMigrate ==> t.boostedPrio <= max)
      ensures victim == current ==> runnable == old(runnable) && migrate == old(migrate)
      ensures victim != current ==> runnable == Without(old(runnable), victim) && migrate == old(migrate) + [victim]
      ensures var told := max >= 0 && (old(threads[current]).kind == PTHREAD || old(runnable) != []);
        Balanced(old(threads), threads, current, old(runnable), if told then Some(victim) else None)
      ensures old(current in threads) && Balances(old(Seen()), Seen())
      ensures Advances(old(runnable), Turn(runnable, None, None))
    {
      hide Queued, Roles, Balanced, Best, Movable;
      var best: int;
      victim, best := FindVictim();
      max := best;
      VisitedAll(old(threads), threads, current, runnable);
      BestIn(old(threads), current, runnable, victim, max);
      if best >= 0 && (threads[current].kind == PTHREAD || uRunnable > 0) {
        ActivateMigration(victim);
        if victim != current {
          SetAside(victim);
        }
      }
      assert MovesAside(old(Seen()), victim, max, Seen());
    }

    /** A turn of the scheduler and then of the load balancer: who is set aside, by the values from before. */
    method ScheduleThenBalance() returns (elected: Option<nat>, victim: nat)
      requires Valid() && threads[current].state != S_USR
      modifies this
      ensures Valid()
      ensures var (k, r) := Back(old(threads[current]), old(current), old(kthreads), old(runnable));
        var queue := if k == [] && old(migrate) == [] && r != [] then r[1..] else r;
        && current == (if elected.Some? then elected.value else idle) && current in old(threads)
        && (forall i :: 0 <= i < |queue| ==> queue[i] in old(threads))
        && BestBefore(old(threads), old(current), current, queue, victim)
        && runnable == (if victim == current then queue else Without(queue, victim))
    {
      hide Queued, Counted, Best, BestBefore, Balanced, Requeued, Dispatched, Advances, First;
      elected := Schedule();
      ghost var queue, max := runnable, 0;
      victim, max := LoadBalance();
      BestThen(old(threads), old(current), elected, current, queue, victim, max);
    }

    /** One operation, if it is possible in this state. */
    method Step(op: Op) returns (turn: Turn)
      requires Valid()
      modifies this
      ensures Valid() && Advances(old(runnable), turn) && turn.runnable == runnable
      ensures Follows(old(Seen()), idle, op, Seen())
    {
      hide Queued, Counted, Wakes, Adds, Schedules, Balances, Best, Balanced, Requeued, First, Back;
      hide Forced, Advances, Switched;
      JoinAdvances(runnable, 0);
      turn := Turn(runnable, None, None);
      match op
      case Sleep =>
        if current != idle && threads[current].state == S_KERNEL { Sleep(); }
      case Exit =>
        if current != idle && threads[current].state == S_KERNEL { Exit(); }
      case EnterKernel =>
        if threads[current].state == S_USR { EnterKernel(); }
      case Wakeup(t) =>
        if t in threads && t != idle && threads[t].state in {S_WAIT, S_READY} {
          Wakeup(t);
          turn := Turn(runnable, None, None);
        }
      case AddCreated(t, x) =>
        if t !in threads && Runnable(x) && x.kind != TH_IDLE {
          AddCreated(t, x);
          turn := Turn(runnable, None, None);
        }
      case Schedule =>
        if threads[current].state != S_USR {
          turn := ScheduleTurn();
        }
      case LoadBalance =>
        if Running(threads[current]) {
          var victim;
          ghost var max;
          victim, max := LoadBalance();
          turn := Turn(runnable, None, None);
        }
    }

    /** `schedule`, with what it did to the queue of user threads. */
    method ScheduleTurn() returns (turn: Turn)
      requires Valid() && threads[current].state != S_USR
      modifies this
      ensures Valid() && Advances(old(runnable), turn) && turn.runnable == runnable
      ensures old(current in threads) && Schedules(old(Seen()), idle, Seen())
    {
      hide Queued, Counted, Advances;
      var (k, r) := Back(threads[current], current, kthreads, runnable);
      var fromUsers := k == [] && migrate == [];
      var pushed := Pushed(threads[current], current);
      var elected := Schedule();
      turn := Turn(runnable, if fromUsers then elected else None, pushed);
    }

    /** Any operations in any order; `history` is what they did to the queue of user threads. Every thread that was
        in the queue is treated fairly. */
    method Run(ops: seq<Op>) returns (history: seq<Turn>, ghost states: seq<View>)
      requires Valid()
      modifies this
      ensures Valid() && TurnsOf(history) && |history| == |states| == |ops| + 1
      ensures states[0] == old(Seen()) && states[|ops|] == Seen()
      ensures forall i :: 0 <= i < |ops| ==> Follows(states[i], idle, ops[i], states[i + 1])
      ensures forall i :: 0 <= i < |states| ==> history[i].runnable == states[i].runnable
      ensures history[0] == Turn(old(runnable), None, None) && history[|history| - 1].runnable == runnable
      ensures forall t, p :: Within(old(runnable), t, p) ==> FairTo(history, t, p)
    {
      history := [Turn(runnable, None, None)];
      states := [Seen()];
      var i := 0;
      while i < |ops|
        invariant Valid() && TurnsOf(history) && i <= |ops| && |history| == |states| == i + 1
        invariant states[0] == old(Seen()) && states[i] == Seen()
        invariant forall j :: 0 <= j < i ==> Follows(states[j], idle, ops[j], states[j + 1])
        invariant forall j :: 0 <= j <= i ==> history[j].runnable == states[j].runnable
        invariant history[0] == Turn(old(runnable), None, None) && history[|history| - 1].runnable == runnable
      {
        QueueKnown(threads, kthreads, runnable, migrate);
        hide Queued, Counted, Roles, Advances, NoDup, Follows, Within, FairTo, TurnsOf;
        ghost var queue := runnable;
        var turn := Step(ops[i]);
        TurnsMore(history, turn, queue);
        history := history + [turn];
        states := states + [Seen()];
        i := i + 1;
      }
      hide Follows, FairTo, Within, TurnsOf;
      forall t, p | Within(old(runnable), t, p)
        ensures FairTo(history, t, p)
      {
        Fair(history, t, p);
      }
    }
  }
}
