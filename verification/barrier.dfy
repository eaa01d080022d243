/** The sense-reversing barrier `mcs_barrier_wait` of kernel/kern/mcs_sync.c: N threads that may call it any
    number of times, every shared read or write one step, in any interleaving. */
module Barrier {
  import opened Collections

  /** Where a thread stands in `mcs_barrier_wait`; `phase` is its local copy of the phase it read. */
  datatype Pc =
    | Outside
    | Entered(phase: bool)   // phase read, counter not yet decremented
    | Spinning(phase: bool)  // waiting for the ticket of its phase
    | Flipping(phase: bool)  // last to arrive: about to write the phase,
    | Refilling(phase: bool) //   the counter,
    | Clearing(phase: bool)  //   the next ticket,
    | Releasing(phase: bool) //   and its own ticket

  /** `mcs_barrier_t` and the threads; the words phase, ticket and ticket2 only ever hold 0 or 1.
      `entered`, `left` and `round` are history: how often each thread has arrived and returned, and how
      many rounds have been released. */
  datatype State = State(n: nat, phase: bool, cntr: int, ticket: bool, ticket2: bool, pc: seq<Pc>,
                         entered: seq<nat>, left: seq<nat>, round: nat)

  function Init(n: nat): State
  {
    State(n, false, n, false, false, seq(n, _ => Outside), seq(n, _ => 0), seq(n, _ => 0), 0)
  }

  /** The ticket that the threads of a phase spin on. */
  function Ticket(s: State, phase: bool): bool
  {
    if phase then s.ticket2 else s.ticket
  }

  function SetTicket(s: State, phase: bool, v: bool): State
  {
    if phase then s.(ticket2 := v) else s.(ticket := v)
  }

  /** One step of thread i. */
  function Next(s: State, i: nat): State
    requires i < |s.pc| == |s.entered| == |s.left|
  {
    match s.pc[i]
    case Outside => s.(pc := s.pc[i := Entered(s.phase)])
    case Entered(p) =>
      var order := s.cntr;
      s.(cntr := s.cntr - 1, entered := s.entered[i := s.entered[i] + 1],
         pc := s.pc[i := if order == 1 then Flipping(p) else Spinning(p)])
    case Spinning(p) =>
      if !Ticket(s, p) then s
      else s.(pc := s.pc[i := Outside], left := s.left[i := s.left[i] + 1])
    case Flipping(p) => s.(phase := !p, pc := s.pc[i := Refilling(p)])
    case Refilling(p) => s.(cntr := s.n, pc := s.pc[i := Clearing(p)])
    case Clearing(p) => SetTicket(s, !p, false).(pc := s.pc[i := Releasing(p)])
    case Releasing(p) =>
      SetTicket(s, p, true).(pc := s.pc[i := Outside], left := s.left[i := s.left[i] + 1], round := s.round + 1)
  }

  // ---------------------------------------------------------------- invariant

  predicate Parity(r: nat) { r % 2 == 1 }

  lemma NextParity(r: nat)
    ensures Parity(r + 1) == !Parity(r)
  {
  }

  predicate Closing(pc: Pc)
  {
    pc.Flipping? || pc.Refilling? || pc.Clearing? || pc.Releasing?
  }

  ghost function Arrived(s: State): set<nat>
    requires |s.entered| == s.n
  {
    set i: nat | i < s.n && s.entered[i] == s.round + 1
  }

  /** A thread is still leaving the released round, or is somewhere in the current one. */
  ghost predicate ThreadOk(s: State, i: nat)
    requires i < |s.pc| == |s.entered| == |s.left|
  {
    if s.left[i] == s.round then
      match s.pc[i]
      case Outside => s.entered[i] == s.round
      case Entered(p) => p == Parity(s.round) && s.entered[i] == s.round
      case _ => s.pc[i].phase == Parity(s.round) && s.entered[i] == s.round + 1
    else
      s.left[i] + 1 == s.round == s.entered[i] && s.pc[i] == Spinning(!Parity(s.round))
  }

  ghost predicate Shape(s: State)
  {
    && s.n >= 1 && |s.pc| == |s.entered| == |s.left| == s.n
    && (forall i: nat :: i < s.n ==> ThreadOk(s, i))
    && !Ticket(s, Parity(s.round))
  }

  /** Nobody is closing the round: the counter counts the missing threads, and the ticket of the released
      round is up as long as someone still waits on it. */
  ghost predicate Open(s: State)
  {
    && Shape(s)
    && (forall i: nat :: i < s.n ==> !Closing(s.pc[i]))
    && s.phase == Parity(s.round)
    && s.cntr == s.n - |Arrived(s)| >= 1
    && (s.round > 0 ==> Ticket(s, !Parity(s.round)))
  }

  /** Thread c closes the round: every thread has arrived, and c has done a prefix of its four writes. */
  ghost predicate Closed(s: State, c: nat)
  {
    && Shape(s)
    && c < s.n && Closing(s.pc[c])
    && (forall i: nat :: i < s.n ==> s.entered[i] == s.round + 1 && s.left[i] == s.round)
    && (forall i: nat :: i < s.n && i != c ==> s.pc[i].Spinning?)
    && s.phase == (if s.pc[c].Flipping? then Parity(s.round) else !Parity(s.round))
    && s.cntr == (if s.pc[c].Flipping? || s.pc[c].Refilling? then 0 else s.n)
    && (s.pc[c].Releasing? ==> !Ticket(s, !Parity(s.round)))
  }

  ghost predicate Inv(s: State)
  {
    Open(s) || exists c: nat :: Closed(s, c)
  }

  lemma InitInv(n: nat)
    requires n >= 1
    ensures Inv(Init(n))
  {
    var s := Init(n);
    assert Arrived(s) == {};
  }

  lemma AllArrived(a: set<nat>, n: nat)
    requires forall i :: i in a ==> i < n
    requires |a| == n
    ensures forall i: nat :: i < n ==> i in a
  {
    var all := Interval(0, n);
    forall i: nat | i < n
      ensures i in a
    {
      if i !in a {
        assert a <= all - {i};
        SubsetSize(a, all - {i});
      }
    }
  }

  lemma Missing(a: set<nat>, n: nat) returns (i: nat)
    requires |a| < n
    ensures i < n && i !in a
  {
    if forall i: nat :: i < n ==> i in a {
      SubsetSize(Interval(0, n), a);
    }
    i :| 0 <= i < n && i !in a;
  }

  /** A thread that does not move stays where it is, as long as the round is the same. */
  lemma OthersOk(s: State, t: State, i: nat)
    requires Shape(s) && i < s.n && t.round == s.round && t.n == s.n
    requires |t.pc| == |t.entered| == |t.left| == s.n
    requires forall j: nat :: j < s.n && j != i ==>
      t.pc[j] == s.pc[j] && t.entered[j] == s.entered[j] && t.left[j] == s.left[j]
    ensures forall j: nat :: j < s.n && j != i ==> ThreadOk(t, j)
  {
    forall j: nat | j < s.n && j != i
      ensures ThreadOk(t, j)
    {
      assert ThreadOk(s, j);
    }
  }

  /** What a thread's history can be. */
  lemma Rounds(s: State, i: nat)
    requires Shape(s) && i < s.n
    ensures s.round <= s.entered[i] <= s.round + 1 && s.round - 1 <= s.left[i] <= s.round
  {
    assert ThreadOk(s, i);
  }

  /** A thread that has arrived in an open round spins in it. */
  lemma ArrivedSpins(s: State, i: nat)
    requires Open(s) && i < s.n && s.entered[i] == s.round + 1
    ensures s.left[i] == s.round && s.pc[i] == Spinning(Parity(s.round))
  {
    assert ThreadOk(s, i);
  }

  /** The state of a thread that has just arrived. */
  lemma ArriveShape(s: State, i: nat, pc: Pc)
    requires Open(s) && i < s.n && s.pc[i].Entered?
    requires pc == Flipping(s.pc[i].phase) || pc == Spinning(s.pc[i].phase)
    ensures var t := s.(cntr := s.cntr - 1, entered := s.entered[i := s.entered[i] + 1], pc := s.pc[i := pc]);
      Shape(t) && i !in Arrived(s) && Arrived(t) == Arrived(s) + {i} && s.left[i] == s.round
  {
    hide Parity;
    var t := s.(cntr := s.cntr - 1, entered := s.entered[i := s.entered[i] + 1], pc := s.pc[i := pc]);
    assert ThreadOk(s, i);
    OthersOk(s, t, i);
  }

  /** An arrival while the round is open: the last one closes it. */
  lemma ArriveInv(s: State, i: nat)
    requires Open(s) && i < s.n && s.pc[i].Entered?
    ensures Inv(Next(s, i))
  {
    hide Parity, ThreadOk;
    var pc := if s.cntr == 1 then Flipping(s.pc[i].phase) else Spinning(s.pc[i].phase);
    var t := s.(cntr := s.cntr - 1, entered := s.entered[i := s.entered[i] + 1], pc := s.pc[i := pc]);
    assert Next(s, i) == t;
    ArriveShape(s, i, pc);
    hide Next, Shape, Arrived, Open, Closed;
    if s.cntr == 1 {
      LastArrived(s, t, i);
    } else {
      MoreToCome(s, t, i);
    }
  }

  lemma MoreToCome(s: State, t: State, i: nat)
    requires Open(s) && i < s.n && s.pc[i].Entered? && s.cntr != 1
    requires t == s.(cntr := s.cntr - 1, entered := s.entered[i := s.entered[i] + 1],
      pc := s.pc[i := Spinning(s.pc[i].phase)])
    requires Shape(t) && i !in Arrived(s) && Arrived(t) == Arrived(s) + {i}
    ensures Open(t)
  {
    hide Parity, ThreadOk;
  }

  lemma LastArrived(s: State, t: State, i: nat)
    requires Open(s) && i < s.n && s.pc[i].Entered? && s.cntr == 1
    requires t == s.(cntr := 0, entered := s.entered[i := s.entered[i] + 1], pc := s.pc[i := Flipping(s.pc[i].phase)])
    requires Shape(t) && i !in Arrived(s) && Arrived(t) == Arrived(s) + {i} && s.left[i] == s.round
    ensures Closed(t, i)
  {
    hide Parity, ThreadOk;
    AllArrived(Arrived(t), s.n);
    forall j: nat | j < s.n && j != i
      ensures t.entered[j] == t.round + 1 && t.left[j] == t.round && t.pc[j].Spinning?
    {
      assert j in Arrived(t);
      ArrivedSpins(s, j);
    }
    assert i in Arrived(t);
  }

  /** The last write of the closer releases the round. */
  lemma ReleaseInv(s: State, c: nat)
    requires Closed(s, c) && s.pc[c].Releasing?
    ensures Open(Next(s, c))
  {
    var t := Next(s, c);
    hide Parity;
    NextParity(s.round);
    assert ThreadOk(s, c);
    forall j: nat | j < s.n
      ensures ThreadOk(t, j)
    {
      assert ThreadOk(s, j);
    }
    assert Arrived(t) == {};
  }

  /** A step that neither arrives nor releases. */
  lemma QuietShape(s: State, i: nat)
    requires Shape(s) && i < s.n && !s.pc[i].Entered? && !s.pc[i].Releasing?
    requires s.phase == Parity(s.round) || !s.pc[i].Outside?
    ensures var t := Next(s, i); Shape(t) && Arrived(t) == Arrived(s)
  {
    hide Parity;
    var t := Next(s, i);
    assert ThreadOk(s, i);
    OthersOk(s, t, i);
    assert ThreadOk(t, i);
  }

  /** In an open round, threads enter, spin, or leave the round released before. */
  lemma OpenInv(s: State, i: nat)
    requires Open(s) && i < s.n
    ensures Inv(Next(s, i))
  {
    if s.pc[i].Entered? {
      ArriveInv(s, i);
    } else {
      hide Parity, ThreadOk, Shape, Arrived;
      assert !Closing(s.pc[i]);
      QuietShape(s, i);
      assert Open(Next(s, i));
    }
  }

  /** In a closing round, only the closer can move. */
  lemma ClosedInv(s: State, c: nat, i: nat)
    requires Closed(s, c) && i < s.n
    ensures Inv(Next(s, i))
  {
    assert ThreadOk(s, i);
    if i == c && s.pc[c].Releasing? {
      ReleaseInv(s, c);
    } else {
      hide Parity, ThreadOk;
      QuietShape(s, i);
      assert Closed(Next(s, i), c);
    }
  }

  lemma StepInv(s: State, i: nat)
    requires Inv(s) && i < s.n
    ensures Inv(Next(s, i))
  {
    if Open(s) {
      OpenInv(s, i);
    } else {
      var c: nat :| Closed(s, c);
      ClosedInv(s, c, i);
    }
  }

  // ---------------------------------------------------------------- runs

  /** The state after a schedule: the thread that moves at each step. */
  ghost function Run(n: nat, schedule: seq<nat>): (s: State)
    requires n >= 1 && forall k :: 0 <= k < |schedule| ==> schedule[k] < n
    ensures Inv(s) && s.n == n
  {
    if schedule == [] then
      InitInv(n);
      Init(n)
    else
      var s := Run(n, schedule[..|schedule| - 1]);
      StepInv(s, schedule[|schedule| - 1]);
      Next(s, schedule[|schedule| - 1])
  }

  /** For any number of threads and any schedule: no thread has left a round that some thread has not
      entered, and threads are never more than one round apart. */
  lemma BarrierSafe(n: nat, schedule: seq<nat>)
    requires n >= 1 && forall k :: 0 <= k < |schedule| ==> schedule[k] < n
    ensures var s := Run(n, schedule);
      && |s.pc| == |s.left| == |s.entered| == n
      && forall i: nat, j: nat :: i < n && j < n ==>
           s.left[i] <= s.entered[j] && s.entered[i] <= s.entered[j] + 1 && s.left[i] <= s.left[j] + 1
    ensures 0 <= Run(n, schedule).cntr <= n
  {
    hide Parity;
    var s := Run(n, schedule);
    forall i: nat, j: nat | i < n && j < n
      ensures s.left[i] <= s.entered[j] && s.entered[i] <= s.entered[j] + 1 && s.left[i] <= s.left[j] + 1
    {
      Rounds(s, i);
      Rounds(s, j);
    }
    if Open(s) {
      SubsetSize(Arrived(s), Interval(0, n));
    }
  }

  lemma CloserMoves(s: State, c: nat)
    requires Closed(s, c)
    ensures |s.pc| == |s.entered| == |s.left| == s.n && c < s.n && !s.pc[c].Outside? && Next(s, c) != s
  {
    assert Next(s, c).pc[c] != s.pc[c];
  }

  /** The barrier does not block: when every thread is inside, one of them can do more than spin. */
  lemma BarrierLive(n: nat, schedule: seq<nat>)
    requires n >= 1 && forall k :: 0 <= k < |schedule| ==> schedule[k] < n
    requires forall i :: 0 <= i < n ==> var s := Run(n, schedule); i < |s.pc| && !s.pc[i].Outside?
    ensures exists i: nat :: i < n && Next(Run(n, schedule), i) != Run(n, schedule)
  {
    hide Parity;
    var s := Run(n, schedule);
    if Open(s) {
      var i := Missing(Arrived(s), n);
      assert ThreadOk(s, i);
      assert Next(s, i) != s;
    } else {
      var c: nat :| Closed(s, c);
      CloserMoves(s, c);
    }
  }

  // ---------------------------------------------------------------- progress

  /** How far a thread is from having done its part in the current round; 7 is still leaving the one before. */
  function Stage(pc: Pc, round: nat): nat
  {
    match pc
    case Outside => 6
    case Entered(_) => 5
    case Flipping(_) => 4
    case Refilling(_) => 3
    case Clearing(_) => 2
    case Releasing(_) => 1
    case Spinning(p) => if p == Parity(round) then 0 else 7
  }

  function Work(pc: seq<Pc>, round: nat): nat
  {
    if pc == [] then 0 else Stage(pc[0], round) + Work(pc[1..], round)
  }

  lemma {:induction false} WorkBound(pc: seq<Pc>, round: nat)
    ensures Work(pc, round) <= 7 * |pc|
  {
    if pc != [] { WorkBound(pc[1..], round); }
  }

  lemma {:induction false} WorkMoves(pc: seq<Pc>, i: nat, x: Pc, round: nat)
    requires i < |pc|
    ensures Work(pc[i := x], round) == Work(pc, round) - Stage(pc[i], round) + Stage(x, round)
    ensures Work(pc, round) >= Stage(pc[i], round)
  {
    hide Stage;
    if i == 0 {
      assert pc[0 := x][1..] == pc[1..];
    } else {
      WorkMoves(pc[1..], i - 1, x, round);
      assert pc[i := x][1..] == pc[1..][i - 1 := x];
    }
  }

  /** A step that changes anything releases the round or leaves less work to do for it. */
  lemma StepAdvances(s: State, i: nat)
    requires Inv(s) && i < s.n && Next(s, i) != s
    ensures |Next(s, i).pc| == s.n
    ensures var t := Next(s, i);
      if s.pc[i].Releasing? then t.round == s.round + 1 && Work(s.pc, s.round) >= 1
      else t.round == s.round && Work(t.pc, t.round) < Work(s.pc, s.round)
  {
    var t := Next(s, i);
    assert ThreadOk(s, i);
    hide Parity, Work;
    if Open(s) {
      assert s.phase == Parity(s.round);
    }
    WorkMoves(s.pc, i, t.pc[i], s.round);
  }

  /** A thread cannot move exactly when it has arrived in the current round and does not close it. */
  lemma BlockedIff(s: State, i: nat)
    requires Inv(s) && i < s.n
    ensures |s.pc| == |s.entered| == |s.left| == s.n
    ensures Next(s, i) == s <==> s.pc[i].Spinning? && s.entered[i] == s.round + 1
  {
    assert ThreadOk(s, i);
    hide Parity;
    assert s.pc[i].Spinning? || Next(s, i).pc[i] != s.pc[i];
    if s.pc[i] == Spinning(!Parity(s.round)) {
      assert Ticket(s, !Parity(s.round));
      assert Next(s, i).pc[i] == Outside;
    }
  }

  /** How many steps of the schedule did more than spin. */
  ghost function Moved(n: nat, schedule: seq<nat>): nat
    requires n >= 1 && forall k :: 0 <= k < |schedule| ==> schedule[k] < n
  {
    if schedule == [] then 0
    else
      var before := schedule[..|schedule| - 1];
      Moved(n, before) + if Run(n, schedule) != Run(n, before) then 1 else 0
  }

  /** The steps taken and the work left are within what the rounds allow, and one more step keeps that. */
  lemma Progress(s: State, i: nat, moved: nat)
    requires Inv(s) && i < s.n && Next(s, i) != s && moved + Work(s.pc, s.round) <= 7 * s.n * (s.round + 1)
    ensures var t := Next(s, i); moved + 1 + Work(t.pc, t.round) <= 7 * s.n * (t.round + 1)
  {
    StepAdvances(s, i);
    WorkBound(Next(s, i).pc, Next(s, i).round);
    hide Inv, Next, Work;
    assert 7 * s.n * (s.round + 2) == 7 * s.n * (s.round + 1) + 7 * s.n;
  }

  /** Progress over any schedule: every 7 * n steps that do more than spin release another round. */
  lemma {:induction false} BarrierProgress(n: nat, schedule: seq<nat>)
    requires n >= 1 && forall k :: 0 <= k < |schedule| ==> schedule[k] < n
    ensures var s := Run(n, schedule); Moved(n, schedule) + Work(s.pc, s.round) <= 7 * n * (s.round + 1)
  {
    hide Inv, Next, Work;
    if schedule == [] {
      WorkBound(Init(n).pc, 0);
    } else {
      var before, i := schedule[..|schedule| - 1], schedule[|schedule| - 1];
      BarrierProgress(n, before);
      if Run(n, schedule) != Run(n, before) {
        Progress(Run(n, before), i, Moved(n, before));
      }
    }
  }

  /** No thread inside can do more than spin. */
  ghost predicate Stuck(s: State)
  {
    && |s.pc| == |s.entered| == |s.left| == s.n
    && forall i: nat :: i < s.n ==> s.pc[i].Outside? || Next(s, i) == s
  }

  lemma StuckOpen(s: State)
    requires Inv(s) && Stuck(s)
    ensures Open(s)
  {
    hide Open, Closed, Next;
    if c: nat :| Closed(s, c) {
      CloserMoves(s, c);
    }
  }

  lemma StuckThread(s: State, i: nat)
    requires Open(s) && Stuck(s) && i < s.n
    ensures s.left[i] == s.round && (s.entered[i] != s.round + 1 ==> s.pc[i].Outside? && s.entered[i] == s.round)
  {
    hide Parity, Arrived;
    assert ThreadOk(s, i);
    assert !s.pc[i].Outside? ==> Next(s, i).pc[i] == s.pc[i];
  }

  /** When no thread inside can do more than spin, everybody has left every released round, and the current one waits
      for a thread that has not called. */
  lemma BarrierWaits(n: nat, schedule: seq<nat>)
    requires n >= 1 && forall k :: 0 <= k < |schedule| ==> schedule[k] < n
    requires Stuck(Run(n, schedule))
    ensures var s := Run(n, schedule);
      && (forall i :: 0 <= i < n ==> s.left[i] == s.round)
      && exists i :: 0 <= i < n && s.pc[i].Outside? && s.entered[i] == s.round
  {
    var s := Run(n, schedule);
    StuckOpen(s);
    var i := Missing(Arrived(s), n);
    hide Open, Inv;
    forall i: nat | i < n
      ensures s.left[i] == s.round && (s.entered[i] != s.round + 1 ==> s.pc[i].Outside? && s.entered[i] == s.round)
    {
      StuckThread(s, i);
    }
  }
}
