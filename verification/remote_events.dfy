/** The remote event listener of kernel/kern/event.c: any number of senders and one listener, interleaved.
    Every shared read or write is one step; each priority's fifo is an atomic queue that may refuse a put. */
module RemoteEvents {
  import opened EventQueues
  import opened LocalEvents

  const E_FUNC: nat := 8

  /** Where a sender stands in `remote_event_send`. */
  datatype Sender =
    | Idle
    | Putting(event: Event)                     // about to call kfifo_put
    | Entered(event: Event)                     // put (or backed off), flags not read yet
    | SawFlag(event: Event, isPending: bool)    // isPending read, `flags |= EVENT_PENDING` not started
    | Loaded(event: Event, isPending: bool)     // flags loaded, not stored yet
    | Stored(event: Event, isPending: bool)     // about to decide on the interrupt

  /** Where the listener stands in `remote_event_listner_notify`. */
  datatype Receiver =
    | Resting
    | Clearing                                  // `flags &= ~EVENT_PENDING` not started
    | ClearLoaded                               // flags loaded, not stored yet
    | Draining(prio: nat)                       // in the for loop
    | Checking                                  // about to test the loop condition

  /** The listener's flag and fifos, the threads, and the history: events put, handed over to the local
      listener and given to the back-off path, and the number of interrupts sent. */
  datatype State = State(pending: bool, fifo: seq<seq<Event>>, senders: seq<Sender>, receiver: Receiver,
                         put: seq<Event>, got: seq<Event>, deferred: seq<Event>, ipis: nat)

  datatype Move = Call(i: nat, event: Event) | Advance(i: nat) | Refuse(i: nat) | BackOff(i: nat) | Notify | Receive

  function Init(n: nat): State
  {
    State(false, seq(E_PRIO_NR, _ => []), seq(n, _ => Idle), Resting, [], [], [], 0)
  }

  function SenderAt(s: State, i: nat, pc: Sender): State
    requires i < |s.senders|
  {
    s.(senders := s.senders[i := pc])
  }

  function SendStep(s: State, i: nat): State
    requires |s.fifo| == E_PRIO_NR && i < |s.senders|
  {
    match s.senders[i]
    case Idle => s
    case Putting(e) => SenderAt(s, i, Entered(e)).(fifo := s.fifo[e.prio := s.fifo[e.prio] + [e]], put := s.put + [e])
    case Entered(e) => SenderAt(s, i, SawFlag(e, s.pending))
    case SawFlag(e, was) => SenderAt(s, i, Loaded(e, was))
    case Loaded(e, was) => SenderAt(s, i, Stored(e, was)).(pending := true)
    case Stored(e, was) => SenderAt(s, i, Idle).(ipis := s.ipis + if e.prio < E_FUNC && !was then 1 else 0)
  }

  function ReceiveStep(s: State): State
    requires |s.fifo| == E_PRIO_NR
  {
    match s.receiver
    case Resting => s
    case Clearing => s.(receiver := ClearLoaded)
    case ClearLoaded => s.(pending := false, receiver := Draining(0))
    case Draining(p) =>
      if p >= E_PRIO_NR then s.(receiver := Checking)
      else if s.fifo[p] == [] then s.(receiver := Draining(p + 1))
      else s.(fifo := s.fifo[p := s.fifo[p][1..]], got := s.got + [s.fifo[p][0]])
    case Checking => s.(receiver := if s.pending then Clearing else Resting)
  }

  /** One step of one thread. A put that is refused is retried, until the sender backs off and goes on. */
  function Next(s: State, m: Move): State
    requires |s.fifo| == E_PRIO_NR
  {
    match m
    case Call(i, e) => if i < |s.senders| && s.senders[i].Idle? then SenderAt(s, i, Putting(e)) else s
    case Advance(i) => if i < |s.senders| then SendStep(s, i) else s
    case Refuse(i) => s
    case BackOff(i) =>
      if i < |s.senders| && s.senders[i].Putting? then
        SenderAt(s, i, Entered(s.senders[i].event)).(deferred := s.deferred + [s.senders[i].event])
      else s
    case Notify => if s.receiver.Resting? && s.pending then s.(receiver := Clearing) else s
    case Receive => ReceiveStep(s)
  }

  // ---------------------------------------------------------------- invariant

  /** The sender has put an event of priority `p`, or backed off with one, and has not stored the flag yet. */
  ghost predicate OnTheWay(pc: Sender, p: nat)
  {
    (pc.Entered? || pc.SawFlag? || pc.Loaded?) && pc.event.prio == p
  }

  ghost predicate Announced(s: State, p: nat)
  {
    exists i :: 0 <= i < |s.senders| && OnTheWay(s.senders[i], p)
  }

  /** The current pass has yet to drain priority `p`. */
  ghost predicate Ahead(r: Receiver, p: nat)
  {
    r.Clearing? || r.ClearLoaded? || (r.Draining? && r.prio <= p)
  }

  /** Events of priority `p` in the fifo are never forgotten. */
  ghost predicate Remembered(s: State, p: nat)
    requires p < |s.fifo|
  {
    s.fifo[p] != [] ==> s.pending || Announced(s, p) || Ahead(s.receiver, p)
  }

  /** What was put has been handed over or is in the fifo, in order. */
  ghost predicate InOrder(s: State, p: nat)
    requires p < |s.fifo|
  {
    Of(s.got, p) + s.fifo[p] == Of(s.put, p)
  }

  ghost predicate Inv(s: State)
  {
    && |s.fifo| == E_PRIO_NR
    && (forall p: Priority :: Remembered(s, p) && InOrder(s, p))
    && (forall p: Priority, k :: 0 <= k < |s.fifo[p]| ==> s.fifo[p][k].prio == p)
  }

  lemma {:induction false} StillAnnounced(s: State, t: State, i: nat, p: nat)
    requires i < |s.senders| == |t.senders| && t.senders == s.senders[i := t.senders[i]]
    requires OnTheWay(s.senders[i], p) ==> OnTheWay(t.senders[i], p)
    ensures Announced(s, p) ==> Announced(t, p)
  {
    if Announced(s, p) {
      var k :| 0 <= k < |s.senders| && OnTheWay(s.senders[k], p);
      assert t.senders[k] == if k == i then t.senders[i] else s.senders[k];
    }
  }

  lemma InitInv(n: nat)
    ensures Inv(Init(n))
  {
  }

  lemma SendInv(s: State, i: nat)
    requires Inv(s) && i < |s.senders|
    ensures Inv(SendStep(s, i))
  {
    var t := SendStep(s, i);
    if !s.senders[i].Idle? {
      var e := s.senders[i].event;
      forall p: Priority
        ensures Remembered(t, p) && InOrder(t, p)
      {
        assert Remembered(s, p) && InOrder(s, p);
        if s.senders[i].Putting? {
          OfSnoc(s.put, e, p);
          if p == e.prio {
            assert OnTheWay(t.senders[i], p);
            assert Of(s.got, p) + (s.fifo[p] + [e]) == (Of(s.got, p) + s.fifo[p]) + [e];
          } else {
            StillAnnounced(s, t, i, p);
          }
        } else if !s.senders[i].Loaded? {
          StillAnnounced(s, t, i, p);
        }
      }
    }
  }

  /** A step that leaves the senders, fifos and history alone and the flag or the pass at least as alert. */
  lemma Alert(s: State, t: State)
    requires Inv(s) && t.senders == s.senders && t.fifo == s.fifo && t.put == s.put && t.got == s.got
    requires forall p: Priority :: s.fifo[p] != [] && (s.pending || Ahead(s.receiver, p)) ==>
      t.pending || Ahead(t.receiver, p)
    ensures Inv(t)
  {
    forall p: Priority
      ensures Remembered(t, p) && InOrder(t, p)
    {
      assert Remembered(s, p) && InOrder(s, p);
      if Announced(s, p) {
        var k :| 0 <= k < |s.senders| && OnTheWay(s.senders[k], p);
        assert OnTheWay(t.senders[k], p);
      }
    }
  }

  lemma PopInv(s: State, q: Priority)
    requires Inv(s) && s.receiver == Draining(q) && s.fifo[q] != []
    ensures Inv(ReceiveStep(s))
  {
    var t := ReceiveStep(s);
    var e := s.fifo[q][0];
    assert e.prio == q;
    hide Of;
    forall p: Priority
      ensures Remembered(t, p) && InOrder(t, p)
    {
      assert Remembered(s, p) && InOrder(s, p);
      OfSnoc(s.got, e, p);
      assert Announced(s, p) ==> Announced(t, p);
      if p == q {
        assert s.fifo[p] == [e] + s.fifo[p][1..];
      }
    }
  }

  lemma ReceiveInv(s: State)
    requires Inv(s)
    ensures Inv(ReceiveStep(s))
  {
    if s.receiver.Draining? && s.receiver.prio < E_PRIO_NR && s.fifo[s.receiver.prio] != [] {
      PopInv(s, s.receiver.prio);
    } else {
      Alert(s, ReceiveStep(s));
    }
  }

  lemma StepInv(s: State, m: Move)
    requires Inv(s)
    ensures Inv(Next(s, m))
  {
    match m
    case Advance(i) =>
      if i < |s.senders| {
        SendInv(s, i);
      }
    case Receive => ReceiveInv(s);
    case Refuse(_) =>
    case Notify => Alert(s, Next(s, m));
    case Call(i, e) =>
      if i < |s.senders| && s.senders[i].Idle? {
        Elsewhere(s, Next(s, m), i);
      }
    case BackOff(i) =>
      if i < |s.senders| && s.senders[i].Putting? {
        Elsewhere(s, Next(s, m), i);
      }
  }

  /** A step of a sender that has put nothing changes nothing for the others. */
  lemma Elsewhere(s: State, t: State, i: nat)
    requires Inv(s) && i < |s.senders| && (s.senders[i].Idle? || s.senders[i].Putting?)
    requires |t.senders| == |s.senders| && t.senders == s.senders[i := t.senders[i]]
    requires t.fifo == s.fifo && t.put == s.put && t.got == s.got && t.pending == s.pending && t.receiver == s.receiver
    ensures Inv(t)
  {
    forall p: Priority
      ensures Remembered(t, p) && InOrder(t, p)
    {
      assert Remembered(s, p) && InOrder(s, p);
      StillAnnounced(s, t, i, p);
    }
  }

  // ---------------------------------------------------------------- every run

  function Run(n: nat, moves: seq<Move>): (s: State)
    ensures Inv(s)
  {
    if moves == [] then
      InitInv(n);
      Init(n)
    else
      var s := Run(n, moves[..|moves| - 1]);
      StepInv(s, moves[|moves| - 1]);
      Next(s, moves[|moves| - 1])
  }

  /** Nothing is forgotten: in every reachable state an event in a fifo has the flag set, or its sender about
      to set it, or a pass of the listener still to reach it; and events leave each priority in the order
      in which they were put. `RunLog` and `CallsInOrder` say which events those are. */
  lemma NoneForgotten(n: nat, moves: seq<Move>, p: Priority)
    ensures var s := Run(n, moves);
      && Of(s.got, p) + s.fifo[p] == Of(s.put, p)
      && (s.fifo[p] != [] ==>
        || s.pending
        || (exists i :: 0 <= i < |s.senders| && OnTheWay(s.senders[i], p))
        || Ahead(s.receiver, p))
  {
    var s := Run(n, moves);
    assert Remembered(s, p) && InOrder(s, p);
  }

  // ---------------------------------------------------------------- what was called

  /** How far the call of one sender has come, by the moves alone: its five steps are the put, or the decision to back
      off, the read of the flag, its load, its store and the interrupt. */
  datatype Phase = Free | Busy(event: Event, step: nat)

  function PhaseNext(phase: Phase, i: nat, m: Move): Phase
  {
    match m
    case Call(j, e) => if j == i && phase.Free? then Busy(e, 1) else phase
    case Advance(j) =>
      if j != i || phase.Free? then phase else if phase.step < 5 then Busy(phase.event, phase.step + 1) else Free
    case BackOff(j) => if j == i && phase.Busy? && phase.step == 1 then Busy(phase.event, 2) else phase
    case Refuse(_) => phase
    case Notify => phase
    case Receive => phase
  }

  function PhaseOf(moves: seq<Move>, i: nat): Phase
  {
    if moves == [] then Free else PhaseNext(PhaseOf(moves[..|moves| - 1], i), i, moves[|moves| - 1])
  }

  /** The events that sender i has called with, in order; a call while another is under way is none. */
  function CalledBy(moves: seq<Move>, i: nat): seq<Event>
  {
    if moves == [] then []
    else
      var front, m := moves[..|moves| - 1], moves[|moves| - 1];
      CalledBy(front, i) + if m.Call? && m.i == i && PhaseOf(front, i).Free? then [m.event] else []
  }

  /** The events that all n senders have called with. */
  function Called(n: nat, moves: seq<Move>): seq<Event>
  {
    if moves == [] then []
    else
      var front, m := moves[..|moves| - 1], moves[|moves| - 1];
      Called(n, front) + if m.Call? && m.i < n && PhaseOf(front, m.i).Free? then [m.event] else []
  }

  /** A call decided: its event was put, or the sender has backed off with it. */
  datatype Entry = Entry(sender: nat, event: Event, isPut: bool)

  /** The calls decided, in the order of the decisions. */
  function Log(n: nat, moves: seq<Move>): seq<Entry>
  {
    if moves == [] then []
    else
      var front, m := moves[..|moves| - 1], moves[|moves| - 1];
      Log(n, front) + Decided(n, m, PhaseOf(front, Mover(m)))
  }

  function Mover(m: Move): nat
  {
    if m.Notify? || m.Receive? then 0 else m.i
  }

  /** What a move of a sender in this phase decides. */
  function Decided(n: nat, m: Move, phase: Phase): (r: seq<Entry>)
    ensures |r| <= 1
  {
    if (m.Advance? || m.BackOff?) && m.i < n && phase.Busy? && phase.step == 1
    then [Entry(m.i, phase.event, m.Advance?)] else []
  }

  function Chosen(log: seq<Entry>, isPut: bool): seq<Event>
  {
    if log == [] then []
    else
      var e := log[|log| - 1];
      Chosen(log[..|log| - 1], isPut) + if e.isPut == isPut then [e.event] else []
  }

  function By(log: seq<Entry>, i: nat): seq<Event>
  {
    if log == [] then []
    else
      var e := log[|log| - 1];
      By(log[..|log| - 1], i) + if e.sender == i then [e.event] else []
  }

  lemma LogMore(log: seq<Entry>, e: seq<Entry>, i: nat, isPut: bool)
    requires |e| <= 1
    ensures By(log + e, i) == By(log, i) + By(e, i) && Chosen(log + e, isPut) == Chosen(log, isPut) + Chosen(e, isPut)
  {
    if e == [] {
      assert log + e == log;
    } else {
      assert (log + e)[..|log|] == log && e[..0] == [];
    }
  }

  /** The sender stands where the moves say. */
  predicate Stands(pc: Sender, phase: Phase)
  {
    match pc
    case Idle => phase == Free
    case Putting(e) => phase == Busy(e, 1)
    case Entered(e) => phase == Busy(e, 2)
    case SawFlag(e, _) => phase == Busy(e, 3)
    case Loaded(e, _) => phase == Busy(e, 4)
    case Stored(e, _) => phase == Busy(e, 5)
  }

  ghost predicate AllStand(s: State, n: nat, moves: seq<Move>)
  {
    |s.senders| == n && forall i: nat :: i < n ==> Stands(s.senders[i], PhaseOf(moves, i))
  }

  /** The events put are those the moves say, in that order, and so are the deferred ones. */
  lemma {:induction false} RunLog(n: nat, moves: seq<Move>)
    ensures var s := Run(n, moves);
      AllStand(s, n, moves) && s.put == Chosen(Log(n, moves), true) && s.deferred == Chosen(Log(n, moves), false)
  {
    if moves != [] {
      var front, m := moves[..|moves| - 1], moves[|moves| - 1];
      RunLog(n, front);
      hide Inv, Chosen, Next;
      StepStands(Run(n, front), n, moves);
      StepLog(Run(n, front), n, moves);
    }
  }

  lemma StepStands(s: State, n: nat, moves: seq<Move>)
    requires |s.fifo| == E_PRIO_NR && moves != [] && AllStand(s, n, moves[..|moves| - 1])
    ensures AllStand(Next(s, moves[|moves| - 1]), n, moves)
  {
  }

  lemma StepLog(s: State, n: nat, moves: seq<Move>)
    requires |s.fifo| == E_PRIO_NR && moves != [] && AllStand(s, n, moves[..|moves| - 1])
    ensures var log, t := Log(n, moves[..|moves| - 1]), Next(s, moves[|moves| - 1]);
      && (s.put == Chosen(log, true) ==> t.put == Chosen(Log(n, moves), true))
      && (s.deferred == Chosen(log, false) ==> t.deferred == Chosen(Log(n, moves), false))
  {
    var front, m := moves[..|moves| - 1], moves[|moves| - 1];
    var phase := PhaseOf(front, Mover(m));
    StepHistory(s, n, m, phase);
    LogMore(Log(n, front), Decided(n, m, phase), 0, true);
    LogMore(Log(n, front), Decided(n, m, phase), 0, false);
    hide Chosen, PhaseOf, Next, Decided;
  }

  lemma StepHistory(s: State, n: nat, m: Move, phase: Phase)
    requires |s.fifo| == E_PRIO_NR && |s.senders| == n && (Mover(m) < n ==> Stands(s.senders[Mover(m)], phase))
    ensures var e, t := Decided(n, m, phase), Next(s, m);
      t.put == s.put + Chosen(e, true) && t.deferred == s.deferred + Chosen(e, false)
  {
    var e := Decided(n, m, phase);
    DecidedOnce(n, m, phase);
    hide Chosen;
    assert s.put + [] == s.put && s.deferred + [] == s.deferred;
  }

  lemma DecidedOnce(n: nat, m: Move, phase: Phase)
    ensures var e := Decided(n, m, phase); var one := if e == [] then [] else [phase.event];
      && Chosen(e, m.Advance?) == one && Chosen(e, !m.Advance?) == [] && By(e, Mover(m)) == one
      && forall j :: j != Mover(m) ==> By(e, j) == []
  {
    assert Decided(n, m, phase)[..0] == [];
  }

  /** Every sender's calls are decided in the order in which they were made, and none is left out but the one it is
      about to decide. */
  lemma {:induction false} CallsInOrder(n: nat, moves: seq<Move>, i: nat)
    requires i < n
    ensures CalledBy(moves, i) == By(Log(n, moves), i) + Undecided(PhaseOf(moves, i))
  {
    if moves != [] {
      var front, m := moves[..|moves| - 1], moves[|moves| - 1];
      CallsInOrder(n, front, i);
      var phase := PhaseOf(front, i);
      var e := Decided(n, m, PhaseOf(front, Mover(m)));
      var call := if m.Call? && m.i == i && phase.Free? then [m.event] else [];
      PhaseSteps(front, i);
      MoveKeeps(n, m, i, phase, PhaseOf(front, Mover(m)));
      LogMore(Log(n, front), e, i, true);
      hide By, Chosen, PhaseNext, Undecided, Decided;
      Associative(By(Log(n, front), i), Undecided(phase), call);
      Associative(By(Log(n, front), i), By(e, i), Undecided(PhaseOf(moves, i)));
    }
  }

  lemma MoveKeeps(n: nat, m: Move, i: nat, phase: Phase, moverPhase: Phase)
    requires i < n && (Mover(m) == i ==> moverPhase == phase) && (phase.Busy? ==> phase.step >= 1)
    ensures Undecided(phase) + (if m.Call? && m.i == i && phase.Free? then [m.event] else [])
         == By(Decided(n, m, moverPhase), i) + Undecided(PhaseNext(phase, i, m))
  {
    DecidedOnce(n, m, moverPhase);
    hide By;
  }

  /** The event of a call that is not decided yet. */
  function Undecided(phase: Phase): seq<Event>
  {
    if phase.Busy? && phase.step == 1 then [phase.event] else []
  }

  lemma {:induction false} PhaseSteps(moves: seq<Move>, i: nat)
    ensures PhaseOf(moves, i).Busy? ==> 1 <= PhaseOf(moves, i).step <= 5
  {
    if moves != [] { PhaseSteps(moves[..|moves| - 1], i); }
  }

  /** How many senders are about to put the event. */
  function Waiting(senders: seq<Sender>, e: Event): nat
  {
    if senders == [] then 0 else Waiting(senders[1..], e) + WaitingAt(senders[0], e)
  }

  function WaitingAt(pc: Sender, e: Event): nat
  {
    if pc == Putting(e) then 1 else 0
  }

  lemma {:induction false} WaitingUpdate(senders: seq<Sender>, i: nat, pc: Sender, e: Event)
    requires i < |senders|
    ensures Waiting(senders[i := pc], e) + WaitingAt(senders[i], e) == Waiting(senders, e) + WaitingAt(pc, e)
  {
    hide WaitingAt;
    if i == 0 {
      assert senders[0 := pc][1..] == senders[1..];
    } else {
      WaitingUpdate(senders[1..], i - 1, pc, e);
      assert senders[i := pc][1..] == senders[1..][i - 1 := pc];
    }
  }

  ghost function Count(es: seq<Event>, e: Event): nat
  {
    multiset(es)[e]
  }

  lemma CountMore(es: seq<Event>, x: seq<Event>, e: Event)
    ensures Count(es + x, e) == Count(es, e) + Count(x, e)
    ensures |x| == 1 ==> Count(x, e) == if x[0] == e then 1 else 0
    ensures x == [] ==> Count(x, e) == 0
  {
    if |x| == 1 { assert x == [x[0]]; }
  }

  /** In every run each event has been called with as often as it was put, deferred or is about to be put. */
  lemma {:induction false} CallsKept(n: nat, moves: seq<Move>, e: Event)
    ensures var s := Run(n, moves);
      Count(Called(n, moves), e) == Count(s.put, e) + Count(s.deferred, e) + Waiting(s.senders, e)
  {
    if moves == [] {
      NoneWaiting(Init(n).senders, e);
    } else {
      var front, m := moves[..|moves| - 1], moves[|moves| - 1];
      CallsKept(n, front, e);
      RunLog(n, front);
      hide Inv, Next, Waiting, Chosen, Log, Count;
      var call := if m.Call? && m.i < n && PhaseOf(front, m.i).Free? then [m.event] else [];
      MoveKept(Run(n, front), n, m, call, PhaseOf(front, Mover(m)), e);
      CountMore(Called(n, front), call, e);
    }
  }

  lemma MoveKept(s: State, n: nat, m: Move, call: seq<Event>, phase: Phase, e: Event)
    requires |s.fifo| == E_PRIO_NR && |s.senders| == n && (Mover(m) < n ==> Stands(s.senders[Mover(m)], phase))
    requires call == if m.Call? && m.i < n && phase.Free? then [m.event] else []
    ensures var t := Next(s, m);
      Count(t.put, e) + Count(t.deferred, e) + Waiting(t.senders, e) ==
        Count(s.put, e) + Count(s.deferred, e) + Waiting(s.senders, e) + Count(call, e)
  {
    hide Waiting, Count, Next;
    var t := Next(s, m);
    CountMore([], call, e);
    if Mover(m) < n && (m.Call? || m.Advance? || m.BackOff?) {
      SenderMoves(s, m);
      var pc := s.senders[m.i];
      WaitingUpdate(s.senders, m.i, t.senders[m.i], e);
      CountMore(s.put, if pc.Putting? && m.Advance? then [pc.event] else [], e);
      CountMore(s.deferred, if pc.Putting? && m.BackOff? then [pc.event] else [], e);
    } else {
      NobodyMoves(s, m);
    }
  }

  lemma NobodyMoves(s: State, m: Move)
    requires |s.fifo| == E_PRIO_NR
    requires m.Call? || m.Advance? || m.BackOff? ==> m.i >= |s.senders|
    ensures var t := Next(s, m); t.senders == s.senders && t.put == s.put && t.deferred == s.deferred
  {
  }

  lemma SenderMoves(s: State, m: Move)
    requires |s.fifo| == E_PRIO_NR && (m.Call? || m.Advance? || m.BackOff?) && m.i < |s.senders|
    ensures var t := Next(s, m); var pc := s.senders[m.i];
      && |t.senders| == |s.senders| && t.senders == s.senders[m.i := t.senders[m.i]]
      && (t.senders[m.i].Putting? <==> (pc.Putting? && m.Call?) || (pc.Idle? && m.Call?))
      && (t.senders[m.i].Putting? ==> t.senders[m.i].event == if pc.Idle? then m.event else pc.event)
      && t.put == s.put + (if pc.Putting? && m.Advance? then [pc.event] else [])
      && t.deferred == s.deferred + (if pc.Putting? && m.BackOff? then [pc.event] else [])
  {
    assert s.put + [] == s.put && s.deferred + [] == s.deferred;
  }

  lemma {:induction false} NoneWaiting(senders: seq<Sender>, e: Event)
    requires forall i :: 0 <= i < |senders| ==> !senders[i].Putting?
    ensures Waiting(senders, e) == 0
  {
    if senders != [] { NoneWaiting(senders[1..], e); }
  }

  /** Sequences that agree on every priority have the same events. */
  lemma SameEvents(a: seq<Event>, b: seq<Event>)
    requires forall p: Priority :: Of(a, p) == Of(b, p)
    ensures multiset(a) == multiset(b)
  {
    forall e: Event
      ensures multiset(a)[e] == multiset(b)[e]
    {
      CountOf(a, e);
      CountOf(b, e);
    }
  }

  lemma {:induction false} CountOf(es: seq<Event>, e: Event)
    ensures multiset(es)[e] == multiset(Of(es, e.prio))[e]
  {
    if es != [] {
      CountOf(es[..|es| - 1], e);
      assert es == es[..|es| - 1] + [es[|es| - 1]];
    }
  }

  // ---------------------------------------------------------------- the listener alone

  ghost predicate SendersIdle(s: State)
  {
    forall i :: 0 <= i < |s.senders| ==> s.senders[i].Idle?
  }

  function Length(fifo: seq<seq<Event>>): nat
  {
    if fifo == [] then 0 else |fifo[0]| + Length(fifo[1..])
  }

  lemma {:induction false} LengthPop(fifo: seq<seq<Event>>, p: nat)
    requires p < |fifo| && fifo[p] != []
    ensures Length(fifo[p := fifo[p][1..]]) + 1 == Length(fifo)
  {
    var popped := fifo[p := fifo[p][1..]];
    if p == 0 {
      assert popped[1..] == fifo[1..];
    } else {
      assert popped[1..] == fifo[1..][p - 1 := fifo[1..][p - 1][1..]];
      LengthPop(fifo[1..], p - 1);
    }
  }

  /** How many steps of the pass are left before the flag is looked at, or cleared. */
  function Rank(s: State): nat
  {
    match s.receiver
    case Resting => if s.pending then 5 else 0
    case Clearing => if s.pending then 4 else E_PRIO_NR + 14
    case ClearLoaded => if s.pending then 3 else E_PRIO_NR + 13
    case Draining(p) => if p <= E_PRIO_NR then 12 + E_PRIO_NR - p else 12
    case Checking => 10
  }

  /** The listener running with nobody sending, until it rests with the flag clear. */
  function Settle(s: State): (t: State)
    requires |s.fifo| == E_PRIO_NR
    decreases Length(s.fifo), s.pending, Rank(s)
  {
    if s.receiver.Resting? then
      if s.pending then Settle(Next(s, Notify)) else s
    else
      if s.receiver.Draining? && s.receiver.prio < E_PRIO_NR && s.fifo[s.receiver.prio] != [] then
        LengthPop(s.fifo, s.receiver.prio);
        Settle(ReceiveStep(s))
      else
        Settle(ReceiveStep(s))
  }

  lemma {:induction false} SettleInv(s: State)
    requires Inv(s)
    ensures Inv(Settle(s)) && Settle(s).senders == s.senders && Settle(s).put == s.put && s.got <= Settle(s).got
    ensures Settle(s).deferred == s.deferred
    ensures Settle(s).receiver == Resting && !Settle(s).pending
    decreases Length(s.fifo), s.pending, Rank(s)
  {
    if s.receiver.Resting? {
      if s.pending {
        StepInv(s, Notify);
        SettleInv(Next(s, Notify));
      }
    } else {
      ReceiveInv(s);
      if s.receiver.Draining? && s.receiver.prio < E_PRIO_NR && s.fifo[s.receiver.prio] != [] {
        LengthPop(s.fifo, s.receiver.prio);
      }
      SettleInv(ReceiveStep(s));
    }
  }

  /** Everything arrives: after any run, once the senders have finished, the listener on its own ends with every event
      that was called with handed over, but for those a sender backed off with, and each priority in the order of the
      puts. */
  lemma AllArrive(n: nat, moves: seq<Move>)
    requires SendersIdle(Run(n, moves))
    ensures var t := Settle(Run(n, moves));
      && |t.fifo| == E_PRIO_NR
      && (forall p: Priority :: t.fifo[p] == [] && Of(t.got, p) == Of(Chosen(Log(n, moves), true), p))
      && t.deferred == Chosen(Log(n, moves), false)
      && multiset(Called(n, moves)) == multiset(t.got) + multiset(t.deferred)
    ensures forall i: nat :: i < n ==> By(Log(n, moves), i) == CalledBy(moves, i)
  {
    var s := Run(n, moves);
    SettleInv(s);
    RunLog(n, moves);
    var t := Settle(s);
    Emptied(t);
    hide Run, Settle, Inv, Of, Chosen, Log, Called, CalledBy, PhaseOf, By;
    SameEvents(t.got, s.put);
    AllCalls(n, moves);
    forall i: nat | i < n
      ensures By(Log(n, moves), i) == CalledBy(moves, i)
    {
      CallsInOrder(n, moves, i);
      assert Stands(s.senders[i], PhaseOf(moves, i));
      assert By(Log(n, moves), i) + [] == By(Log(n, moves), i);
    }
  }

  lemma Emptied(t: State)
    requires Inv(t) && SendersIdle(t) && t.receiver == Resting && !t.pending
    ensures forall p: Priority :: t.fifo[p] == [] && Of(t.got, p) == Of(t.put, p)
  {
    hide Of;
    forall p: Priority
      ensures t.fifo[p] == [] && Of(t.got, p) == Of(t.put, p)
    {
      assert Remembered(t, p) && InOrder(t, p);
      assert Of(t.got, p) + [] == Of(t.got, p);
    }
  }

  /** Once the senders have finished, every event called with has been put or deferred. */
  lemma AllCalls(n: nat, moves: seq<Move>)
    requires SendersIdle(Run(n, moves))
    ensures multiset(Called(n, moves)) == multiset(Run(n, moves).put) + multiset(Run(n, moves).deferred)
  {
    var s := Run(n, moves);
    hide Run, Called;
    forall e: Event
      ensures multiset(Called(n, moves))[e] == (multiset(s.put) + multiset(s.deferred))[e]
    {
      CallsKept(n, moves, e);
      NoneWaiting(s.senders, e);
    }
  }

  /** A whole call of sender i. */
  function WholeCall(s: State, i: nat, e: Event): State
    requires |s.fifo| == E_PRIO_NR
  {
    var a := Advance(i);
    Next(Next(Next(Next(Next(Next(s, Call(i, e)), a), a), a), a), a)
  }

  /** A call that nobody interferes with: the event is in its fifo, the flag is set, and an interrupt is sent exactly
      for an urgent event on a flag that was clear. */
  lemma CallAlone(s: State, i: nat, e: Event)
    requires |s.fifo| == E_PRIO_NR && i < |s.senders| && s.senders[i].Idle?
    ensures WholeCall(s, i, e) ==
      s.(fifo := s.fifo[e.prio := s.fifo[e.prio] + [e]], put := s.put + [e], pending := true,
         ipis := if e.prio < E_FUNC && !s.pending then s.ipis + 1 else s.ipis)
  {
    assert WholeCall(s, i, e).senders == s.senders;
  }

  /** So an urgent event that comes first is announced, and one behind an event that is not urgent, which has set the
      flag, waits without an interrupt. */
  lemma UrgentWaits(e: Event, u: Event)
    requires e.prio >= E_FUNC > u.prio
    ensures WholeCall(Init(2), 1, u).ipis == 1
    ensures var s := WholeCall(Init(2), 0, e);
      |s.fifo| == E_PRIO_NR && var t := WholeCall(s, 1, u);
        t.fifo[u.prio] == [u] && t.receiver.Resting? && SendersIdle(t) && t.ipis == 0
  {
    CallAlone(Init(2), 1, u);
    CallAlone(Init(2), 0, e);
    CallAlone(WholeCall(Init(2), 0, e), 1, u);
    hide WholeCall;
  }

  /** From the senders to the handlers: after any run, once the senders have finished, one notification of the remote
      listener and one of the local listener deliver exactly the events that were called with, not deferred and not yet
      taken, each once, sorted by priority. As the hand-over puts each event in front of its queue, those of one
      priority come in the reverse of the order in which they were put, and before the local events that waited. */
  method DeliverRemote(n: nat, moves: seq<Move>, el: Listener) returns (batch: seq<Event>, delivered: seq<Event>)
    requires SendersIdle(Run(n, moves)) && el.Valid() && el.Listening()
    modifies el
    ensures el.Valid() && forall p: Priority :: el.tbl[p].list == []
    ensures var s := Run(n, moves);
      && multiset(Called(n, moves)) == multiset(s.got) + multiset(batch) + multiset(s.deferred)
      && forall p: Priority :: Of(s.got, p) + Of(batch, p) == Of(Chosen(Log(n, moves), true), p)
    ensures forall p: Priority :: Of(delivered, p) == Reversed(Of(batch, p)) + old(el.tbl)[p].list
    ensures forall i, j :: 0 <= i < j < |delivered| ==> delivered[i].prio <= delivered[j].prio
  {
    var s := Run(n, moves);
    var t := Settle(s);
    SettleInv(s);
    batch := t.got[|s.got|..];
    Taken(n, moves, batch);
    hide *;
    el.HandOver(batch);
    delivered := el.NotifyQuiet();
  }

  lemma Taken(n: nat, moves: seq<Move>, batch: seq<Event>)
    requires SendersIdle(Run(n, moves)) && Settle(Run(n, moves)).got == Run(n, moves).got + batch
    ensures var s := Run(n, moves);
      && multiset(Called(n, moves)) == multiset(s.got) + multiset(batch) + multiset(s.deferred)
      && forall p: Priority :: Of(s.got, p) + Of(batch, p) == Of(Chosen(Log(n, moves), true), p)
  {
    AllArrive(n, moves);
    RunLog(n, moves);
    var s := Run(n, moves);
    hide Run, Settle, Inv, Of, Chosen, Log, Called, CalledBy, PhaseOf, By, AllStand;
    assert multiset(s.got + batch) == multiset(s.got) + multiset(batch);
    forall p: Priority
      ensures Of(s.got, p) + Of(batch, p) == Of(Chosen(Log(n, moves), true), p)
    {
      OfConcat(s.got, batch, p);
    }
  }
}
