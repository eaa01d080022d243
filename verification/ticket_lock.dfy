/** The ticket lock `mcs_lock` / `mcs_unlock` of kernel/kern/mcs_sync.c, with 32-bit tickets that wrap: any
    number of threads up to 2^32, every shared access one step, in any interleaving. */
module TicketLock {
  import opened Arithmetic
  import opened Collections

  const WORD: nat := 0x1_0000_0000

  datatype Pc =
    | Idle
    | Waiting(ticket: nat)   // ticket taken, spinning on cntr
    | Holding
    | Releasing(next: nat)   // cntr read and incremented, not yet written back

  /** `mcs_lock_t` and the threads. History: the threads with tickets out, in ticket order; those that have
      released the lock, in the order in which they did; all arrivals in ticket order; all acquisitions in order. */
  datatype State = State(ticket: nat, cntr: nat, pc: seq<Pc>,
                         queue: seq<nat>, past: seq<nat>, arrivals: seq<nat>, acquired: seq<nat>)

  function Init(n: nat): State
  {
    State(0, 0, seq(n, _ => Idle), [], [], [], [])
  }

  function Next(s: State, i: nat): State
    requires i < |s.pc|
  {
    match s.pc[i]
    case Idle =>
      s.(ticket := (s.ticket + 1) % WORD, pc := s.pc[i := Waiting(s.ticket)],
         queue := s.queue + [i], arrivals := s.arrivals + [i])
    case Waiting(t) =>
      if t != s.cntr then s
      else s.(pc := s.pc[i := Holding], acquired := s.acquired + [i])
    case Holding => s.(pc := s.pc[i := Releasing((s.cntr + 1) % WORD)])
    case Releasing(next) =>
      s.(cntr := next, pc := s.pc[i := Idle], past := s.past + [i],
         queue := if s.queue == [] then [] else s.queue[1..])
  }

  predicate Inside(pc: Pc) { pc.Holding? || pc.Releasing? }

  /** The thread with the ticket being served. */
  ghost predicate FrontOk(pc: Pc, served: nat)
  {
    || pc == Waiting(Slot(served, WORD))
    || pc == Holding
    || pc == Releasing(Slot(served + 1, WORD))
  }

  /** The threads inside are those in the queue, each once, each with the ticket of its place. */
  ghost predicate Queued(pc: seq<Pc>, queue: seq<nat>, served: nat)
  {
    && (forall k :: 0 <= k < |queue| ==> queue[k] < |pc|)
    && (forall j, k :: 0 <= j < k < |queue| ==> queue[j] != queue[k])
    && (forall i :: 0 <= i < |pc| && pc[i] != Idle ==> i in queue)
    && (queue != [] ==> FrontOk(pc[queue[0]], served))
    && (forall k :: 0 < k < |queue| ==> pc[queue[k]] == Waiting(Slot(served + k, WORD)))
  }

  ghost predicate Inv(s: State)
  {
    && |s.pc| <= WORD
    && s.ticket == Slot(|s.past| + |s.queue|, WORD) && s.cntr == Slot(|s.past|, WORD)
    && Queued(s.pc, s.queue, |s.past|)
    && s.arrivals == s.past + s.queue
    && s.acquired == s.past + if s.queue != [] && Inside(s.pc[s.queue[0]]) then [s.queue[0]] else []
  }

  /** At most one lap of tickets is out. */
  lemma FewInside(a: seq<nat>, n: nat)
    requires forall k :: 0 <= k < |a| ==> a[k] < n
    requires NoDup(a)
    ensures |a| <= n
  {
    QueueSize(a);
    SubsetSize(ToSet(a), Interval(0, n));
  }

  /** A thread that is not idle holds exactly one of the tickets out, less than a lap from the one served. */
  lemma Place(s: State, i: nat) returns (k: nat)
    requires Inv(s) && i < |s.pc| && s.pc[i] != Idle
    ensures k < |s.queue| && s.queue[k] == i && k < WORD
  {
    hide Slot;
    k :| 0 <= k < |s.queue| && s.queue[k] == i;
    FewInside(s.queue, |s.pc|);
  }

  lemma ArriveInv(s: State, i: nat)
    requires Inv(s) && i < |s.pc| && s.pc[i] == Idle
    ensures Inv(Next(s, i))
  {
    hide Slot;
    NextSlot(|s.past| + |s.queue|, WORD);
    assert forall k :: 0 <= k < |s.queue| ==> s.pc[s.queue[k]] != Idle;
    assert s.past + (s.queue + [i]) == s.past + s.queue + [i];
  }

  lemma AcquireInv(s: State, i: nat)
    requires Inv(s) && i < |s.pc| && s.pc[i].Waiting?
    ensures Inv(Next(s, i))
  {
    hide Slot;
    var k := Place(s, i);
    if k > 0 {
      SlotInjective(|s.past|, |s.past| + k, WORD);
    }
  }

  lemma ReleaseInv(s: State, i: nat)
    requires Inv(s) && i < |s.pc| && s.pc[i].Releasing?
    ensures Inv(Next(s, i))
  {
    hide Slot;
    var t := Next(s, i);
    var k := Place(s, i);
    assert s.queue[0] == i;
    assert s.past + s.queue == s.past + [i] + s.queue[1..];
    forall j | 0 <= j < |t.pc| && t.pc[j] != Idle
      ensures j in t.queue
    {
      var m := Place(s, j);
      assert t.queue[m - 1] == j;
    }
    assert forall m :: 0 <= m < |t.queue| ==> t.queue[m] == s.queue[m + 1];
    assert forall m :: 0 < m < |s.queue| ==> s.pc[s.queue[m]] == Waiting(Slot(|s.past| + m, WORD));
  }

  lemma HoldInv(s: State, i: nat)
    requires Inv(s) && i < |s.pc| && s.pc[i].Holding?
    ensures Inv(Next(s, i))
  {
    hide Slot;
    var k := Place(s, i);
    NextSlot(|s.past|, WORD);
  }

  lemma StepInv(s: State, i: nat)
    requires Inv(s) && i < |s.pc|
    ensures Inv(Next(s, i)) && |Next(s, i).pc| == |s.pc|
  {
    match s.pc[i]
    case Idle => ArriveInv(s, i);
    case Waiting(_) => AcquireInv(s, i);
    case Holding => HoldInv(s, i);
    case Releasing(_) => ReleaseInv(s, i);
  }

  ghost function Run(n: nat, schedule: seq<nat>): (s: State)
    requires n <= WORD && forall k :: 0 <= k < |schedule| ==> schedule[k] < n
    ensures Inv(s) && |s.pc| == n
  {
    if schedule == [] then Init(n)
    else
      var s := Run(n, schedule[..|schedule| - 1]);
      StepInv(s, schedule[|schedule| - 1]);
      Next(s, schedule[|schedule| - 1])
  }

  /** A thread cannot move exactly when it waits and another one is served. */
  lemma BlockedIff(s: State, i: nat)
    requires Inv(s) && i < |s.pc|
    ensures Next(s, i) == s <==> s.pc[i].Waiting? && s.queue != [] && s.queue[0] != i
  {
    hide Slot;
    if s.pc[i] != Idle {
      var k := Place(s, i);
      if k > 0 { SlotInjective(|s.past|, |s.past| + k, WORD); }
      assert !s.pc[i].Waiting? ==> Next(s, i).pc[i] != s.pc[i];
    } else {
      assert Next(s, i).pc[i] != s.pc[i];
    }
  }

  /** How many steps of the schedule did more than spin. */
  ghost function Moved(n: nat, schedule: seq<nat>): nat
    requires n <= WORD && forall k :: 0 <= k < |schedule| ==> schedule[k] < n
  {
    if schedule == [] then 0
    else
      var before := schedule[..|schedule| - 1];
      Moved(n, before) + if Run(n, schedule) != Run(n, before) then 1 else 0
  }

  /** Steps of the thread being served beyond its ticket. */
  function Stage(s: State): nat
  {
    if s.queue == [] || s.queue[0] >= |s.pc| then 0
    else if s.pc[s.queue[0]].Holding? then 1 else if s.pc[s.queue[0]].Releasing? then 2 else 0
  }

  /** Progress: over every schedule each passage takes four steps that do more than spin, so the lock has been released
      once for every four of them, but for those of the threads inside. */
  lemma {:induction false} TicketProgress(n: nat, schedule: seq<nat>)
    requires n <= WORD && forall k :: 0 <= k < |schedule| ==> schedule[k] < n
    ensures var s := Run(n, schedule); Moved(n, schedule) == 4 * |s.past| + |s.queue| + Stage(s)
  {
    if schedule != [] {
      var before, i := schedule[..|schedule| - 1], schedule[|schedule| - 1];
      TicketProgress(n, before);
      hide Run, Next, Inv, Stage;
      StepCounts(Run(n, before), i);
    }
  }

  lemma StepCounts(s: State, i: nat)
    requires Inv(s) && i < |s.pc|
    ensures var t := Next(s, i);
      4 * |t.past| + |t.queue| + Stage(t) == 4 * |s.past| + |s.queue| + Stage(s) + if t != s then 1 else 0
  {
    hide Slot;
    BlockedIff(s, i);
    if s.pc[i] != Idle { var k := Place(s, i); }
  }

  /** Over every interleaving of up to 2^32 threads: one holder at a time, in the order of the tickets; and
      whenever a thread waits, some thread can move other than by spinning. */
  lemma TicketLockSafe(n: nat, schedule: seq<nat>)
    requires n <= WORD && forall k :: 0 <= k < |schedule| ==> schedule[k] < n
    ensures var s := Run(n, schedule);
      && (forall i, j :: 0 <= i < |s.pc| && 0 <= j < |s.pc| && Inside(s.pc[i]) && Inside(s.pc[j]) ==> i == j)
      && s.acquired <= s.arrivals
      && (forall i :: 0 <= i < |s.pc| && s.pc[i].Waiting? ==>
         exists j: nat :: j < |s.pc| && s.pc[j] != Idle && Next(s, j) != s)
  {
    hide Slot;
    var s := Run(n, schedule);
    forall i | 0 <= i < |s.pc| && Inside(s.pc[i])
      ensures s.queue != [] && i == s.queue[0]
    {
      var k := Place(s, i);
    }
    forall i | 0 <= i < |s.pc| && s.pc[i].Waiting?
      ensures exists j: nat :: j < |s.pc| && s.pc[j] != Idle && Next(s, j) != s
    {
      var k := Place(s, i);
      var j := s.queue[0];
      assert Next(s, j).pc[j] != s.pc[j];
    }
  }
}
