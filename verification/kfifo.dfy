/** The single-producer single-consumer ring of kernel/kern/kfifo.c: `single_put` and `single_get` running
    concurrently, every shared read or write one step, so that each side works with a stale index of the other. */
module Kfifo {
  import opened Arithmetic

  /** Where the producer stands in `single_put`. `consumed` is history: how many values had been taken when it
      read rdidx. */
  datatype Producer =
    | PutIdle
    | PutCalled(val: int)
    | PutGotWr(val: int, wridx: nat)
    | PutGotRd(val: int, wridx: nat, rdidx: nat, consumed: nat)
    | PutRoom(val: int, wridx: nat)
    | PutStored(val: int, wridx: nat)

  /** Where the consumer stands in `single_get`. `produced` is history. */
  datatype Consumer =
    | GetIdle
    | GetCalled
    | GetGotRd(rdidx: nat)
    | GetGotWr(rdidx: nat, wridx: nat, produced: nat)
    | GetMore(rdidx: nat)
    | GetLoaded(rdidx: nat, val: int)

  /** `struct kfifo_s`, the two threads, and the values put and got so far. */
  datatype State = State(tbl: seq<int>, rdidx: nat, wridx: nat, prod: Producer, cons: Consumer, put: seq<int>,
    got: seq<int>)

  datatype Move = Call(val: int) | Produce | CallGet | Consume

  function Init(size: nat): State
  {
    State(seq(size, _ => 0), 0, 0, PutIdle, GetIdle, [], [])
  }

  function ProduceStep(s: State): State
    requires |s.tbl| >= 1
  {
    var size := |s.tbl|;
    match s.prod
    case PutIdle => s
    case PutCalled(v) => s.(prod := PutGotWr(v, s.wridx))
    case PutGotWr(v, w) => s.(prod := PutGotRd(v, w, s.rdidx, |s.got|))
    case PutGotRd(v, w, r, _) => s.(prod := if (w + 1) % size == r then PutIdle else PutRoom(v, w))
    case PutRoom(v, w) => if w < size then s.(tbl := s.tbl[w := v], prod := PutStored(v, w)) else s
    case PutStored(v, w) => s.(wridx := (w + 1) % size, prod := PutIdle, put := s.put + [v])
  }

  function ConsumeStep(s: State): State
    requires |s.tbl| >= 1
  {
    var size := |s.tbl|;
    match s.cons
    case GetIdle => s
    case GetCalled => s.(cons := GetGotRd(s.rdidx))
    case GetGotRd(r) => s.(cons := GetGotWr(r, s.wridx, |s.put|))
    case GetGotWr(r, w, _) => s.(cons := if r == w then GetIdle else GetMore(r))
    case GetMore(r) => if r < size then s.(cons := GetLoaded(r, s.tbl[r])) else s
    case GetLoaded(r, v) => s.(rdidx := (r + 1) % size, cons := GetIdle, got := s.got + [v])
  }

  function Next(s: State, m: Move): State
    requires |s.tbl| >= 1
  {
    match m
    case Call(v) => if s.prod.PutIdle? then s.(prod := PutCalled(v)) else s
    case Produce => ProduceStep(s)
    case CallGet => if s.cons.GetIdle? then s.(cons := GetCalled) else s
    case Consume => ConsumeStep(s)
  }

  // ---------------------------------------------------------------- invariant

  ghost predicate ProducerOk(s: State)
    requires |s.tbl| >= 1
  {
    var size, p := |s.tbl|, |s.put|;
    match s.prod
    case PutIdle => true
    case PutCalled(_) => true
    case PutGotWr(_, w) => w == Slot(p, size)
    case PutGotRd(_, w, r, c) => w == Slot(p, size) && r == Slot(c, size) && c <= |s.got| && p - c < size
    case PutRoom(_, w) => w == Slot(p, size) && p + 1 - |s.got| < size
    case PutStored(v, w) => w == Slot(p, size) && p + 1 - |s.got| < size && s.tbl[w] == v
  }

  ghost predicate ConsumerOk(s: State)
    requires |s.tbl| >= 1
  {
    var size, c := |s.tbl|, |s.got|;
    match s.cons
    case GetIdle => true
    case GetCalled => true
    case GetGotRd(r) => r == Slot(c, size)
    case GetGotWr(r, w, p) => r == Slot(c, size) && w == Slot(p, size) && c <= p <= |s.put|
    case GetMore(r) => r == Slot(c, size) && c < |s.put|
    case GetLoaded(r, v) => r == Slot(c, size) && c < |s.put| && v == s.put[c]
  }

  /** The values put and not yet got are in their slots, in order; at most size - 1 of them. */
  ghost predicate Inv(s: State)
  {
    && |s.tbl| >= 1
    && s.got <= s.put && |s.put| - |s.got| < |s.tbl|
    && s.wridx == Slot(|s.put|, |s.tbl|) && s.rdidx == Slot(|s.got|, |s.tbl|)
    && (forall k: nat :: |s.got| <= k < |s.put| ==> s.tbl[Slot(k, |s.tbl|)] == s.put[k])
    && ProducerOk(s) && ConsumerOk(s)
  }

  /** A store goes to a slot that holds no outstanding value. */
  lemma StoreInv(s: State)
    requires Inv(s) && s.prod.PutRoom?
    ensures Inv(ProduceStep(s))
  {
    hide Slot;
    var size, p := |s.tbl|, |s.put|;
    forall k: nat | |s.got| <= k < p
      ensures Slot(k, size) != s.prod.wridx
    {
      SlotInjective(k, p, size);
    }
  }

  lemma PublishInv(s: State)
    requires Inv(s) && s.prod.PutStored?
    ensures Inv(ProduceStep(s))
  {
    hide Slot;
    NextSlot(|s.put|, |s.tbl|);
    var t := ProduceStep(s);
    forall k: nat | |t.got| <= k < |t.put|
      ensures t.tbl[Slot(k, |t.tbl|)] == t.put[k]
    {
    }
  }

  lemma ProduceInv(s: State)
    requires Inv(s)
    ensures Inv(ProduceStep(s))
  {
    if s.prod.PutRoom? {
      StoreInv(s);
    } else if s.prod.PutStored? {
      PublishInv(s);
    } else {
      hide Slot;
      var size, p := |s.tbl|, |s.put|;
      NextSlot(p, size);
      if s.prod.PutGotRd? && p + 1 - s.prod.consumed == size { Lap(s.prod.consumed, size); }
    }
  }

  lemma ConsumeInv(s: State)
    requires Inv(s)
    ensures Inv(ConsumeStep(s))
  {
    hide Slot;
    NextSlot(|s.got|, |s.tbl|);
  }

  lemma StepInv(s: State, m: Move)
    requires Inv(s)
    ensures Inv(Next(s, m)) && |Next(s, m).tbl| == |s.tbl|
  {
    match m
    case Produce => ProduceInv(s);
    case Consume => ConsumeInv(s);
    case _ =>
  }

  ghost function Run(size: nat, moves: seq<Move>): (s: State)
    requires size >= 1
    ensures Inv(s) && |s.tbl| == size
  {
    if moves == [] then Init(size)
    else
      var s := Run(size, moves[..|moves| - 1]);
      StepInv(s, moves[|moves| - 1]);
      Next(s, moves[|moves| - 1])
  }

  /** Over every interleaving: what was got is a prefix of what was put, at most size - 1 values are
      outstanding, and none of them has been overwritten. */
  lemma RingRefinesQueue(size: nat, moves: seq<Move>)
    requires size >= 1
    ensures var s := Run(size, moves);
      && s.got <= s.put && |s.put| - |s.got| <= size - 1
      && forall k: nat :: |s.got| <= k < |s.put| ==> s.tbl[k % size] == s.put[k]
  {
    var s := Run(size, moves);
    forall k: nat | |s.got| <= k < |s.put|
      ensures s.tbl[k % size] == s.put[k]
    {
      assert Slot(k, size) == k % size;
    }
  }

  /** EAGAIN is honest: a refused put saw size - 1 values outstanding when it read rdidx, and a refused get
      saw none when it read wridx. */
  lemma RefusalsHonest(s: State)
    requires Inv(s)
    ensures s.prod.PutGotRd? ==> (ProduceStep(s).prod.PutIdle? <==> |s.put| - s.prod.consumed == |s.tbl| - 1)
    ensures s.cons.GetGotWr? ==> (ConsumeStep(s).cons.GetIdle? <==> s.cons.produced == |s.got|)
  {
    hide Slot;
    var size := |s.tbl|;
    NextSlot(|s.put|, size);
    if s.prod.PutGotRd? {
      var c := s.prod.consumed;
      if |s.put| + 1 - c < size { SlotInjective(c, |s.put| + 1, size); } else { Lap(c, size); }
    }
    if s.cons.GetGotWr? && |s.got| < s.cons.produced { SlotInjective(|s.got|, s.cons.produced, size); }
  }

  // ---------------------------------------------------------------- what was called

  /** The values `single_put` was called with, in order; a call while another is under way is none. */
  ghost function Calls(size: nat, moves: seq<Move>): seq<int>
    requires size >= 1
  {
    if moves == [] then []
    else
      var front, m := moves[..|moves| - 1], moves[|moves| - 1];
      Calls(size, front) + if m.Call? && Run(size, front).prod.PutIdle? then [m.val] else []
  }

  /** The answers of `single_put`, in order: whether the value was taken. */
  ghost function Answers(size: nat, moves: seq<Move>): seq<bool>
    requires size >= 1
  {
    if moves == [] then []
    else
      var front := moves[..|moves| - 1];
      var was := Run(size, front).prod;
      Answers(size, front) + if !was.PutIdle? && Run(size, moves).prod.PutIdle? then [was.PutStored?] else []
  }

  /** The values of the calls answered with yes. */
  function Granted(calls: seq<int>, answers: seq<bool>): seq<int>
    requires |answers| <= |calls|
  {
    if answers == [] then []
    else
      var n := |answers| - 1;
      Granted(calls, answers[..n]) + if answers[n] then [calls[n]] else []
  }

  lemma {:induction false} GrantedFrame(calls: seq<int>, more: seq<int>, answers: seq<bool>)
    requires |answers| <= |calls|
    ensures Granted(calls + more, answers) == Granted(calls, answers)
  {
    if answers != [] { GrantedFrame(calls, more, answers[..|answers| - 1]); }
  }

  lemma GrantedNext(calls: seq<int>, answers: seq<bool>, yes: bool)
    requires |answers| < |calls|
    ensures Granted(calls, answers + [yes]) == Granted(calls, answers) + if yes then [calls[|answers|]] else []
  {
    assert (answers + [yes])[..|answers|] == answers;
  }

  /** Over every interleaving each call is answered once, in order, and the values put are those of the calls answered
      with yes. */
  lemma {:induction false} PutsAnswered(size: nat, moves: seq<Move>)
    requires size >= 1
    ensures var s, calls, answers := Run(size, moves), Calls(size, moves), Answers(size, moves);
      && |calls| == |answers| + (if s.prod.PutIdle? then 0 else 1)
      && (!s.prod.PutIdle? ==> calls[|answers|] == s.prod.val)
      && s.put == Granted(calls, answers)
  {
    if moves != [] {
      var front, m := moves[..|moves| - 1], moves[|moves| - 1];
      PutsAnswered(size, front);
      var s := Run(size, front);
      var calls, answers := Calls(size, front), Answers(size, front);
      var more := if m.Call? && s.prod.PutIdle? then [m.val] else [];
      GrantedFrame(calls, more, answers);
      if !s.prod.PutIdle? { GrantedNext(calls, answers, s.prod.PutStored?); }
      MoveAnswers(s, m);
      hide Inv, Next, Granted;
      assert calls + [] == calls && answers + [] == answers && s.put + [] == s.put;
    }
  }

  lemma MoveAnswers(s: State, m: Move)
    requires Inv(s)
    ensures var t := Next(s, m);
      && t.put == s.put + (if m.Produce? && s.prod.PutStored? then [s.prod.val] else [])
      && (s.prod.PutIdle? ==> if m.Call? then t.prod == PutCalled(m.val) else t.prod.PutIdle?)
      && (!s.prod.PutIdle? && !t.prod.PutIdle? ==> t.prod.val == s.prod.val && !(m.Produce? && s.prod.PutStored?))
      && (!s.prod.PutIdle? && t.prod.PutIdle? ==> m.Produce?)
  {
    assert s.put + [] == s.put;
  }

  function Steps(s: State, m: Move, n: nat): (t: State)
    requires Inv(s)
    ensures Inv(t) && |t.tbl| == |s.tbl|
    decreases n
  {
    if n == 0 then s
    else
      StepInv(s, m);
      Steps(Next(s, m), m, n - 1)
  }

  /** A whole put that nobody interferes with: the value is in the ring, or refused exactly when the ring is full. */
  lemma PutAlone(s: State, v: int)
    requires Inv(s) && s.prod.PutIdle?
    ensures Inv(Next(s, Call(v)))
    ensures var t := Steps(Next(s, Call(v)), Produce, 5);
      if |s.put| - |s.got| == |s.tbl| - 1 then t == s
      else t.put == s.put + [v] && t.got == s.got && t.prod.PutIdle? && t.cons == s.cons
  {
    hide Slot;
    StepInv(s, Call(v));
    var s1 := Next(s, Call(v));
    var s2 := ProduceStep(s1);
    var s3 := ProduceStep(s2);
    StepInv(s1, Produce);
    StepInv(s2, Produce);
    RefusalsHonest(s3);
    assert Steps(s1, Produce, 5) == Steps(s2, Produce, 4) == Steps(s3, Produce, 3);
    StepInv(s3, Produce);
    var s4 := ProduceStep(s3);
    StepInv(s4, Produce);
    assert Steps(s3, Produce, 3) == Steps(s4, Produce, 2) == Steps(ProduceStep(s4), Produce, 1)
        == ProduceStep(ProduceStep(s4));
  }

  /** A whole get that nobody interferes with: the oldest value, or a refusal exactly when the ring is empty. */
  lemma GetAlone(s: State)
    requires Inv(s) && s.cons.GetIdle?
    ensures Inv(Next(s, CallGet))
    ensures var t := Steps(Next(s, CallGet), Consume, 5);
      if |s.put| == |s.got| then t == s
      else t.got == s.got + [s.put[|s.got|]] && t.put == s.put && t.cons.GetIdle? && t.prod == s.prod
  {
    hide Slot;
    StepInv(s, CallGet);
    var s1 := Next(s, CallGet);
    var s2 := ConsumeStep(s1);
    var s3 := ConsumeStep(s2);
    StepInv(s1, Consume);
    StepInv(s2, Consume);
    RefusalsHonest(s3);
    assert Steps(s1, Consume, 5) == Steps(s2, Consume, 4) == Steps(s3, Consume, 3);
    StepInv(s3, Consume);
    var s4 := ConsumeStep(s3);
    StepInv(s4, Consume);
    assert Steps(s3, Consume, 3) == Steps(s4, Consume, 2) == Steps(ConsumeStep(s4), Consume, 1)
        == ConsumeStep(ConsumeStep(s4));
  }
}
