/** The order in which one notification delivers events across priorities (kernel/kern/event.c), said of the queues at
    the call, the script and the events delivered alone. */
module EventOrder {
  import opened EventQueues

  /** An event of priority q is queued when the events of `done` have been delivered. */
  ghost predicate Waits(before: seq<Queue>, script: Script, done: seq<Event>, q: nat)
  {
    q < |before| && |Of(done, q)| < |before[q].list| + |Of(Sent(script, |done|), q)|
  }

  function Min(a: nat, b: nat): nat
  {
    if a <= b then a else b
  }

  /** The most urgent priority among some events and `hint`. */
  function Lowest(hint: nat, es: seq<Event>): nat
  {
    if es == [] then hint else Min(Lowest(hint, es[..|es| - 1]), es[|es| - 1].prio)
  }

  /** One of the events is at least as urgent as `low`. */
  ghost predicate HasLow(es: seq<Event>, low: int)
  {
    exists i :: 0 <= i < |es| && es[i].prio <= low
  }

  function Last(done: seq<Event>): Priority
    requires done != []
  {
    done[|done| - 1].prio
  }

  /** Where the events of the last queue drained begin. */
  function Begin(done: seq<Event>): (b: nat)
    requires done != []
    ensures b < |done| && forall i :: b <= i < |done| ==> done[i].prio == Last(done)
    ensures b > 0 ==> done[b - 1].prio != Last(done)
  {
    var n := |done| - 1;
    if n == 0 || done[n - 1].prio != done[n].prio then n else Begin(done[..n])
  }

  /** The events sent by the invocations from a to b - 1. */
  function SentFrom(script: Script, a: nat, b: nat): seq<Event>
  {
    if b <= a then [] else SentFrom(script, a, b - 1) + Events(SendsOf(script, b - 1))
  }

  /** The scan starts again: a handler of the queue just drained has sent an event at least as urgent as any priority
      the scans have started from. The very last queue is drained without looking. */
  ghost predicate Restarts(hint: nat, script: Script, done: seq<Event>)
    requires done != []
  {
    var b := Begin(done);
    Last(done) < E_PRIO_NR - 1 && HasLow(SentFrom(script, b, |done|), Lowest(hint, Sent(script, b)))
  }

  /** It is the turn of priority p: that of the queue being drained as long as it is not empty; after that, at first and
      when the scan starts again, the most urgent one that waits; otherwise the next one that waits. */
  ghost predicate IsTurn(before: seq<Queue>, hint: nat, script: Script, done: seq<Event>, p: nat)
  {
    && Waits(before, script, done, p)
    && if done != [] && Waits(before, script, done, Last(done)) then p == Last(done)
       else if done == [] || Restarts(hint, script, done) then
         forall q :: 0 <= q < p ==> !Waits(before, script, done, q)
       else
         p > Last(done) && forall q :: Last(done) < q < p ==> !Waits(before, script, done, q)
  }

  /** Every event was delivered in the turn of its priority. */
  ghost predicate Ordered(before: seq<Queue>, hint: nat, script: Script, delivered: seq<Event>)
  {
    forall d :: 0 <= d < |delivered| ==> IsTurn(before, hint, script, delivered[..d], delivered[d].prio)
  }

  /** It is nobody's turn any more. */
  ghost predicate Over(before: seq<Queue>, hint: nat, script: Script, delivered: seq<Event>)
  {
    forall p: Priority :: !IsTurn(before, hint, script, delivered, p)
  }

  // ---------------------------------------------------------------- facts

  lemma {:induction false} LowestConcat(hint: nat, a: seq<Event>, b: seq<Event>)
    ensures Lowest(hint, a + b) == Lowest(Lowest(hint, a), b)
  {
    if b == [] {
      assert a + b == a;
    } else {
      LowestConcat(hint, a, b[..|b| - 1]);
      assert (a + b)[..|a + b| - 1] == a + b[..|b| - 1];
    }
  }

  lemma {:induction false} SentParts(script: Script, a: nat, b: nat)
    requires a <= b
    ensures Sent(script, b) == Sent(script, a) + SentFrom(script, a, b)
  {
    if a < b {
      SentParts(script, a, b - 1);
      SentNext(script, b - 1);
      hide Sent, Events;
      Associative(Sent(script, a), SentFrom(script, a, b - 1), Events(SendsOf(script, b - 1)));
    }
  }

  /** What the accounting says about a queue. */
  lemma WaitsIff(before: seq<Queue>, script: Script, done: seq<Event>, qs: seq<Queue>, fifo: bool, n: nat, q: Priority)
    requires Conserved(before, Sent(script, |done|), done, qs, fifo, n)
    ensures Waits(before, script, done, q) <==> qs[q].list != []
  {
    assert Lane(q, before, Sent(script, |done|), done, qs, fifo);
    hide Of, Sent;
    var b, s, d, a := before[q].list, Of(Sent(script, |done|), q), Of(done, q), qs[q].list;
    assert |multiset(d) + multiset(a)| == |d| + |a| && |multiset(b) + multiset(s)| == |b| + |s|;
  }

  lemma WaitsAll(before: seq<Queue>, script: Script, done: seq<Event>, qs: seq<Queue>, fifo: bool, n: nat)
    requires Conserved(before, Sent(script, |done|), done, qs, fifo, n)
    ensures forall q: nat :: q < E_PRIO_NR ==> (Waits(before, script, done, q) <==> qs[q].list != [])
  {
    hide Waits, Sent;
    forall q: nat | q < E_PRIO_NR
      ensures Waits(before, script, done, q) <==> qs[q].list != []
    {
      WaitsIff(before, script, done, qs, fifo, n, q);
    }
  }

  lemma OrderedNone(before: seq<Queue>, hint: nat, script: Script)
    ensures Ordered(before, hint, script, [])
  {
  }

  lemma OrderedMore(before: seq<Queue>, hint: nat, script: Script, done: seq<Event>, e: Event)
    requires Ordered(before, hint, script, done) && IsTurn(before, hint, script, done, e.prio)
    ensures Ordered(before, hint, script, done + [e])
  {
    hide IsTurn;
    var more := done + [e];
    forall d | 0 <= d < |more|
      ensures IsTurn(before, hint, script, more[..d], more[d].prio)
    {
      if d < |done| { assert more[..d] == done[..d]; } else { assert more[..d] == done; }
    }
  }

  lemma BeginMore(done: seq<Event>, e: Event)
    ensures Begin(done + [e]) == if done == [] || Last(done) != e.prio then |done| else Begin(done)
  {
    assert (done + [e])[..|done|] == done;
  }

  // ---------------------------------------------------------------- the hint

  /** The hint after the events `since` have been sent, when the scan started at `start`. */
  ghost predicate Heard(start: nat, prio: nat, pending: bool, since: seq<Event>)
  {
    && (!pending ==> prio > start) && (prio <= start <==> HasLow(since, start))
    && Min(start, prio) == Lowest(start, since)
  }

  /** `local_event_send` keeps the more urgent of the hint and its own priority, or takes its own. */
  lemma HeardSend(start: nat, prio: nat, pending: bool, since: seq<Event>, e: Event)
    requires Heard(start, prio, pending, since)
    ensures Heard(start, if !pending || prio > e.prio then e.prio else prio, true, since + [e])
  {
    var more := since + [e];
    assert more[..|since|] == since && more[|since|] == e;
    if HasLow(since, start) {
      var i :| 0 <= i < |since| && since[i].prio <= start;
      assert more[i].prio <= start;
    }
    if e.prio <= start { assert more[|since|].prio <= start; }
  }

  lemma HeardNone(start: nat, prio: nat, pending: bool)
    requires prio > start
    ensures Heard(start, prio, pending, [])
  {
  }

  // ---------------------------------------------------------------- the scan

  /** The scan stands before queue `current`: what it has passed since the last delivery, or since it started again, is
      empty, and the hint says whether it is to start again. */
  ghost predicate Scanning(before: seq<Queue>, hint: nat, script: Script, done: seq<Event>, qs: seq<Queue>,
                           current: nat, start: nat, prio: nat, again: bool)
  {
    && |qs| == E_PRIO_NR
    && Min(start, prio) == Lowest(hint, Sent(script, |done|))
    && (done != [] ==> qs[Last(done)].list == [])
    && if done == [] || again then
         && prio > start && (forall q :: 0 <= q < current && q < E_PRIO_NR ==> qs[q].list == [])
         && (again ==> done != [] && Restarts(hint, script, done))
       else
         && current > Last(done) && (forall q :: Last(done) < q < current && q < E_PRIO_NR ==> qs[q].list == [])
         && (prio <= start ==> current == Last(done) + 1)
         && (prio <= start <==>
               HasLow(SentFrom(script, Begin(done), |done|), Lowest(hint, Sent(script, Begin(done)))))
  }

  lemma ScanStart(before: seq<Queue>, script: Script, start: nat)
    requires |before| == E_PRIO_NR && forall q :: 0 <= q < start && q < E_PRIO_NR ==> before[q].list == []
    ensures Scanning(before, start, script, [], before, start, start, start + 1, false)
  {
  }

  /** The scan starts again. */
  lemma ScanAgain(before: seq<Queue>, hint: nat, script: Script, done: seq<Event>, qs: seq<Queue>, current: nat,
                  start: nat, prio: nat, again: bool)
    requires Scanning(before, hint, script, done, qs, current, start, prio, again) && prio <= start
    requires current < E_PRIO_NR && forall q :: 0 <= q < prio && q < E_PRIO_NR ==> qs[q].list == []
    ensures Scanning(before, hint, script, done, qs, prio, prio, prio + 1, true)
  {
  }

  /** The next queue is empty. */
  lemma ScanOn(before: seq<Queue>, hint: nat, script: Script, done: seq<Event>, qs: seq<Queue>, current: nat,
               start: nat, prio: nat, again: bool)
    requires Scanning(before, hint, script, done, qs, current, start, prio, again) && prio > start
    requires current < E_PRIO_NR && qs[current].list == []
    ensures Scanning(before, hint, script, done, qs, current + 1, start, prio, again)
  {
    hide Lowest, HasLow, SentFrom, Sent;
  }

  /** The next queue is not empty: it is its turn. */
  lemma ScanTurn(before: seq<Queue>, hint: nat, script: Script, done: seq<Event>, qs: seq<Queue>, current: nat,
                 start: nat, prio: nat, again: bool, fifo: bool, n: nat)
    requires Scanning(before, hint, script, done, qs, current, start, prio, again) && prio > start
    requires Conserved(before, Sent(script, |done|), done, qs, fifo, n)
    requires current < E_PRIO_NR && qs[current].list != []
    ensures Ready(before, hint, script, done, current)
    ensures start == Lowest(hint, Sent(script, |done|))
  {
    WaitsAll(before, script, done, qs, fifo, n);
    hide Waits, Conserved, Lowest, HasLow, SentFrom, Sent;
  }

  /** The queue may be drained next. */
  ghost predicate Ready(before: seq<Queue>, hint: nat, script: Script, done: seq<Event>, current: nat)
  {
    IsTurn(before, hint, script, done, current) && (done != [] ==> Last(done) != current)
  }

  /** From `done` to `delivered` one queue has been drained in its turn, if any event was delivered at all. */
  ghost predicate Drained(before: seq<Queue>, hint: nat, script: Script, done: seq<Event>, delivered: seq<Event>,
                          current: nat, start: nat, prio: nat, pending: bool)
  {
    && Ordered(before, hint, script, delivered) && done <= delivered
    && (|done| < |delivered| ==> Last(delivered) == current && Begin(delivered) == |done|)
    && Heard(start, prio, pending, SentFrom(script, |done|, |delivered|))
  }

  lemma DrainedNone(before: seq<Queue>, hint: nat, script: Script, done: seq<Event>, current: nat, start: nat,
                    prio: nat, pending: bool)
    requires Ordered(before, hint, script, done) && prio > start
    ensures Drained(before, hint, script, done, done, current, start, prio, pending)
  {
    hide Ordered;
  }

  lemma DrainedHeard(before: seq<Queue>, hint: nat, script: Script, done: seq<Event>, delivered: seq<Event>,
                     current: nat, start: nat, prio: nat, pending: bool)
    requires Drained(before, hint, script, done, delivered, current, start, prio, pending)
    ensures Heard(start, prio, pending, SentFrom(script, |done|, |delivered|))
  {
  }

  lemma DrainedOrdered(before: seq<Queue>, hint: nat, script: Script, done: seq<Event>, delivered: seq<Event>,
                       current: nat, start: nat, prio: nat, pending: bool)
    requires Drained(before, hint, script, done, delivered, current, start, prio, pending)
    ensures Ordered(before, hint, script, delivered) && done <= delivered
  {
  }

  lemma DrainedMore(before: seq<Queue>, hint: nat, script: Script, done: seq<Event>, so: seq<Event>,
                    delivered: seq<Event>, current: nat, start: nat, prio: nat, pending: bool, prio': nat,
                    pending': bool, qs: seq<Queue>, fifo: bool, n: nat)
    requires Drained(before, hint, script, done, so, current, start, prio, pending)
    requires |so| == |done| ==> Ready(before, hint, script, done, current)
    requires Conserved(before, Sent(script, |so|), so, qs, fifo, n) && current < E_PRIO_NR && qs[current].list != []
    requires so < delivered && |delivered| == |so| + 1 && Last(delivered) == current
    requires Heard(start, prio', pending', SentFrom(script, |done|, |delivered|))
    ensures Drained(before, hint, script, done, delivered, current, start, prio', pending')
  {
    hide Conserved, Ordered, IsTurn, Heard, Sent, SentFrom;
    var e := delivered[|so|];
    assert delivered == so + [e];
    if |so| > |done| { TurnGoesOn(before, hint, script, so, qs, fifo, n); } else { assert so == done; }
    assert IsTurn(before, hint, script, so, current);
    OrderedMore(before, hint, script, so, e);
    BeginMore(so, e);
    hide Begin;
  }

  /** A queue has been drained. */
  lemma ScanDrained(before: seq<Queue>, hint: nat, script: Script, done: seq<Event>, delivered: seq<Event>,
                    qs: seq<Queue>, current: nat, start: nat, prio: nat, pending: bool)
    requires Drained(before, hint, script, done, delivered, current, start, prio, pending) && |done| < |delivered|
    requires |qs| == E_PRIO_NR && current < E_PRIO_NR && qs[current].list == []
    requires start == Lowest(hint, Sent(script, |done|))
    ensures Scanning(before, hint, script, delivered, qs, current + 1, start, prio, false)
  {
    SentParts(script, |done|, |delivered|);
    LowestConcat(hint, Sent(script, |done|), SentFrom(script, |done|, |delivered|));
    hide Ordered;
  }

  /** The scan is over. */
  lemma ScanEnd(before: seq<Queue>, hint: nat, script: Script, done: seq<Event>, qs: seq<Queue>, start: nat, prio: nat,
                again: bool, fifo: bool, n: nat)
    requires Scanning(before, hint, script, done, qs, E_PRIO_NR, start, prio, again)
    requires Conserved(before, Sent(script, |done|), done, qs, fifo, n)
    ensures Over(before, hint, script, done)
  {
    WaitsAll(before, script, done, qs, fifo, n);
    hide Waits, Conserved, Lowest, HasLow, SentFrom, Sent;
  }

  /** A queue that is being drained and not empty goes on. */
  lemma TurnGoesOn(before: seq<Queue>, hint: nat, script: Script, done: seq<Event>, qs: seq<Queue>, fifo: bool, n: nat)
    requires done != [] && Conserved(before, Sent(script, |done|), done, qs, fifo, n) && qs[Last(done)].list != []
    ensures IsTurn(before, hint, script, done, Last(done))
  {
    WaitsIff(before, script, done, qs, fifo, n, Last(done));
  }

  // ---------------------------------------------------------------- what the order means

  /** Another queue begins with delivery d. */
  ghost predicate Switch(delivered: seq<Event>, d: nat)
  {
    d < |delivered| && (d > 0 ==> delivered[d - 1].prio != delivered[d].prio)
  }

  /** No queue is begun while a more urgent event waits. */
  ghost predicate UrgentFirst(before: seq<Queue>, script: Script, delivered: seq<Event>)
  {
    forall d: nat, q: nat :: Switch(delivered, d) && q < delivered[d].prio ==> !Waits(before, script, delivered[..d], q)
  }

  /** No handler sends an event more urgent than its own, unless the scan starts again after its queue. */
  ghost predicate Polite(hint: nat, script: Script, delivered: seq<Event>)
  {
    forall d: nat :: Switch(delivered, d) && d > 0 ==> PoliteBefore(hint, script, delivered[..d])
  }

  ghost predicate PoliteBefore(hint: nat, script: Script, done: seq<Event>)
    requires done != []
  {
    Restarts(hint, script, done) || !HasLow(SentFrom(script, Begin(done), |done|), Last(done) - 1)
  }

  lemma {:induction false} OfNone(es: seq<Event>, q: nat)
    ensures Of(es, q) == [] <==> forall i :: 0 <= i < |es| ==> es[i].prio != q
  {
    if es != [] {
      OfNone(es[..|es| - 1], q);
      assert forall i :: 0 <= i < |es| - 1 ==> es[..|es| - 1][i] == es[i];
    }
  }

  /** How a queue changes from delivery e to delivery d, when none of its events is delivered. */
  lemma Meanwhile(script: Script, delivered: seq<Event>, e: nat, d: nat, q: nat)
    requires e <= d <= |delivered| && forall i :: e <= i < d ==> delivered[i].prio != q
    ensures |Of(delivered[..d], q)| == |Of(delivered[..e], q)|
    ensures |Of(Sent(script, d), q)| == |Of(Sent(script, e), q)| + |Of(SentFrom(script, e, d), q)|
  {
    hide Of, Sent, SentFrom;
    assert delivered[..d] == delivered[..e] + delivered[e..d];
    OfConcat(delivered[..e], delivered[e..d], q);
    OfNone(delivered[e..d], q);
    SentParts(script, e, d);
    OfConcat(Sent(script, e), SentFrom(script, e, d), q);
  }

  /** No more events are delivered than were queued and sent. */
  lemma {:induction false} NotMore(before: seq<Queue>, hint: nat, script: Script, delivered: seq<Event>, d: nat, q: nat)
    requires Ordered(before, hint, script, delivered) && d <= |delivered| && q < |before|
    ensures |Of(delivered[..d], q)| <= |before[q].list| + |Of(Sent(script, d), q)|
  {
    if d > 0 {
      NotMore(before, hint, script, delivered, d - 1, q);
      InTurn(before, hint, script, delivered, d - 1);
      CountNext(delivered, d - 1, q);
      SentGrows(script, d - 1, q);
      hide Of, Sent, Ordered;
    }
  }

  lemma CountNext(delivered: seq<Event>, d: nat, q: nat)
    requires d < |delivered|
    ensures |Of(delivered[..d + 1], q)| == |Of(delivered[..d], q)| + if delivered[d].prio == q then 1 else 0
  {
    assert delivered[..d + 1] == delivered[..d] + [delivered[d]];
    OfSnoc(delivered[..d], delivered[d], q);
  }

  lemma SentGrows(script: Script, d: nat, q: nat)
    ensures |Of(Sent(script, d), q)| <= |Of(Sent(script, d + 1), q)|
  {
    SentNext(script, d);
    OfConcat(Sent(script, d), Events(SendsOf(script, d)), q);
  }

  lemma InTurn(before: seq<Queue>, hint: nat, script: Script, delivered: seq<Event>, d: nat)
    requires Ordered(before, hint, script, delivered) && d < |delivered|
    ensures Waits(before, script, delivered[..d], delivered[d].prio)
  {
    assert IsTurn(before, hint, script, delivered[..d], delivered[d].prio);
  }

  /** What the turn says when another queue begins. */
  lemma AtSwitch(before: seq<Queue>, hint: nat, script: Script, delivered: seq<Event>, d: nat)
    requires Ordered(before, hint, script, delivered) && Switch(delivered, d) && d > 0
    ensures var done, p := delivered[..d], delivered[d].prio;
      && done != [] && !Waits(before, script, done, Last(done))
      && (if Restarts(hint, script, done) then forall q :: 0 <= q < p ==> !Waits(before, script, done, q)
          else Last(done) < p && forall q :: Last(done) < q < p ==> !Waits(before, script, done, q))
  {
    assert IsTurn(before, hint, script, delivered[..d], delivered[d].prio);
    hide Waits, Restarts;
  }

  /** The drain before delivery d is one of a single priority, and begins with a switch. */
  lemma DrainBefore(delivered: seq<Event>, d: nat)
    requires 0 < d <= |delivered|
    ensures var e := Begin(delivered[..d]);
      && e < d && Switch(delivered, e) && delivered[e].prio == Last(delivered[..d])
      && forall i :: e <= i < d ==> delivered[i].prio == Last(delivered[..d])
  {
    var done := delivered[..d];
    assert forall i :: 0 <= i < d ==> done[i] == delivered[i];
    hide Begin;
  }

  /** A queue that nobody delivers from or sends to stays empty. */
  lemma StaysEmpty(before: seq<Queue>, script: Script, delivered: seq<Event>, e: nat, d: nat, q: nat)
    requires e <= d <= |delivered| && !Waits(before, script, delivered[..e], q)
    requires forall i :: e <= i < d ==> delivered[i].prio != q
    requires forall i :: 0 <= i < |SentFrom(script, e, d)| ==> SentFrom(script, e, d)[i].prio != q
    ensures !Waits(before, script, delivered[..d], q)
  {
    Meanwhile(script, delivered, e, d, q);
    OfNone(SentFrom(script, e, d), q);
    hide Of, Sent, SentFrom;
  }

  /** The most urgent event goes first at every switch if and only if the handlers are polite. */
  lemma UrgentIff(before: seq<Queue>, hint: nat, script: Script, delivered: seq<Event>)
    requires Ordered(before, hint, script, delivered) && |before| == E_PRIO_NR
    ensures UrgentFirst(before, script, delivered) <==> Polite(hint, script, delivered)
  {
    hide Waits, Restarts, Ordered, PoliteBefore;
    if Polite(hint, script, delivered) {
      forall d: nat, q: nat | Switch(delivered, d) && q < delivered[d].prio
        ensures !Waits(before, script, delivered[..d], q)
      {
        PoliteUrgent(before, hint, script, delivered, d, q);
      }
    } else {
      var d: nat :| Switch(delivered, d) && d > 0 && !PoliteBefore(hint, script, delivered[..d]);
      var q := Rude(before, hint, script, delivered, d);
    }
  }

  lemma {:induction false} PoliteUrgent(before: seq<Queue>, hint: nat, script: Script, delivered: seq<Event>, d: nat,
                                        q: nat)
    requires Ordered(before, hint, script, delivered) && Polite(hint, script, delivered)
    requires Switch(delivered, d) && q < delivered[d].prio
    ensures !Waits(before, script, delivered[..d], q)
    decreases d
  {
    if d == 0 {
      assert IsTurn(before, hint, script, delivered[..0], delivered[0].prio);
    } else {
      hide Waits, Ordered, IsTurn;
      AtSwitch(before, hint, script, delivered, d);
      DrainBefore(delivered, d);
      assert PoliteBefore(hint, script, delivered[..d]);
      var e := Begin(delivered[..d]);
      hide Restarts, Begin, SentFrom;
      if !Restarts(hint, script, delivered[..d]) && q < Last(delivered[..d]) {
        PoliteUrgent(before, hint, script, delivered, e, q);
        StaysEmpty(before, script, delivered, e, d, q);
      }
    }
  }

  lemma Rude(before: seq<Queue>, hint: nat, script: Script, delivered: seq<Event>, d: nat) returns (q: nat)
    requires Ordered(before, hint, script, delivered) && |before| == E_PRIO_NR
    requires Switch(delivered, d) && d > 0 && !PoliteBefore(hint, script, delivered[..d])
    ensures q < delivered[d].prio && Waits(before, script, delivered[..d], q)
  {
    hide Ordered, Restarts, Begin, Waits, SentFrom;
    AtSwitch(before, hint, script, delivered, d);
    DrainBefore(delivered, d);
    var e := Begin(delivered[..d]);
    var sent := SentFrom(script, e, d);
    var i :| 0 <= i < |sent| && sent[i].prio <= Last(delivered[..d]) - 1;
    q := sent[i].prio;
    NowWaits(before, hint, script, delivered, e, d, i);
  }

  /** An event sent from delivery e on waits at delivery d, if none of its priority has been delivered. */
  lemma NowWaits(before: seq<Queue>, hint: nat, script: Script, delivered: seq<Event>, e: nat, d: nat, i: nat)
    requires Ordered(before, hint, script, delivered) && |before| == E_PRIO_NR && e <= d <= |delivered|
    requires i < |SentFrom(script, e, d)|
    requires forall j :: e <= j < d ==> delivered[j].prio != SentFrom(script, e, d)[i].prio
    ensures Waits(before, script, delivered[..d], SentFrom(script, e, d)[i].prio)
  {
    var sent := SentFrom(script, e, d);
    var q := sent[i].prio;
    OfNone(sent, q);
    Meanwhile(script, delivered, e, d, q);
    NotMore(before, hint, script, delivered, e, q);
    hide Of, Sent, SentFrom, Ordered;
  }

  /** An event at least as urgent as any the scans have started from is never passed over. */
  lemma {:induction false} NeverPassed(before: seq<Queue>, hint: nat, script: Script, delivered: seq<Event>, d: nat,
                                       q: nat)
    requires Ordered(before, hint, script, delivered) && Switch(delivered, d)
    requires q < delivered[d].prio && q <= Lowest(hint, Sent(script, d))
    ensures !Waits(before, script, delivered[..d], q)
    decreases d
  {
    if d == 0 {
      assert IsTurn(before, hint, script, delivered[..0], delivered[0].prio);
    } else {
      AtSwitch(before, hint, script, delivered, d);
      LowestFalls(hint, script, Begin(delivered[..d]), d);
      hide Waits, Ordered, IsTurn, Lowest, Sent, SentFrom, Restarts;
      if !Restarts(hint, script, delivered[..d]) {
        NoRestart(before, hint, script, delivered, d, q);
      }
    }
  }

  lemma LowestFalls(hint: nat, script: Script, a: nat, b: nat)
    requires a <= b
    ensures Lowest(hint, Sent(script, b)) <= Lowest(hint, Sent(script, a))
  {
    SentParts(script, a, b);
    LowestConcat(hint, Sent(script, a), SentFrom(script, a, b));
    LowestBelow(Lowest(hint, Sent(script, a)), SentFrom(script, a, b));
  }

  lemma {:induction false} LowestBelow(hint: nat, es: seq<Event>)
    ensures Lowest(hint, es) <= hint
  {
    if es != [] { LowestBelow(hint, es[..|es| - 1]); }
  }

  lemma {:induction false} NoRestart(before: seq<Queue>, hint: nat, script: Script, delivered: seq<Event>, d: nat,
                                     q: nat)
    requires Ordered(before, hint, script, delivered) && 0 < d <= |delivered|
    requires !Restarts(hint, script, delivered[..d]) && Last(delivered[..d]) < E_PRIO_NR - 1
    requires !Waits(before, script, delivered[..d], Last(delivered[..d]))
    requires forall r :: Last(delivered[..d]) < r <= q ==> !Waits(before, script, delivered[..d], r)
    requires q <= Lowest(hint, Sent(script, Begin(delivered[..d])))
    ensures !Waits(before, script, delivered[..d], q)
    decreases d, 0
  {
    DrainBefore(delivered, d);
    var e := Begin(delivered[..d]);
    hide Begin, Waits, Ordered, IsTurn, Lowest, Sent, SentFrom;
    if q < Last(delivered[..d]) {
      NeverPassed(before, hint, script, delivered, e, q);
      StaysEmpty(before, script, delivered, e, d, q);
    }
  }

  /** What is left at the end: events less urgent than any the scans have started from, and more urgent than the queue
      drained last; or anything, when that was the very last queue. */
  lemma LeftOver(before: seq<Queue>, hint: nat, script: Script, delivered: seq<Event>, q: Priority)
    requires Ordered(before, hint, script, delivered) && Over(before, hint, script, delivered) && |before| == E_PRIO_NR
    requires Waits(before, script, delivered, q)
    ensures delivered != [] && q < Last(delivered)
    ensures Last(delivered) < E_PRIO_NR - 1 ==> q > Lowest(hint, Sent(script, Begin(delivered)))
  {
    LeastWaiting(before, hint, script, delivered, q);
    hide Waits, Ordered, IsTurn, Lowest, Sent, SentFrom;
    if Last(delivered) < E_PRIO_NR - 1 && q <= Lowest(hint, Sent(script, Begin(delivered))) {
      assert delivered[..|delivered|] == delivered;
      NoRestart(before, hint, script, delivered, |delivered|, q);
    }
  }

  /** At the end nothing waits after the queue drained last, and nothing at all when the scan would start again. */
  lemma LeastWaiting(before: seq<Queue>, hint: nat, script: Script, delivered: seq<Event>, q: Priority)
    requires Over(before, hint, script, delivered) && |before| == E_PRIO_NR && Waits(before, script, delivered, q)
    ensures delivered != [] && q < Last(delivered) && !Restarts(hint, script, delivered)
    ensures forall r: nat :: r >= Last(delivered) ==> !Waits(before, script, delivered, r)
  {
    hide Restarts, Waits, IsTurn;
    if delivered == [] || Restarts(hint, script, delivered) || Waits(before, script, delivered, Last(delivered)) {
      SomeTurn(before, hint, script, delivered, q);
    }
    forall r: nat | r >= Last(delivered)
      ensures !Waits(before, script, delivered, r)
    {
      if Waits(before, script, delivered, r) { SomeTurn(before, hint, script, delivered, r); }
    }
  }

  lemma SomeTurn(before: seq<Queue>, hint: nat, script: Script, done: seq<Event>, q: nat)
    requires Waits(before, script, done, q) && |before| == E_PRIO_NR
    requires done == [] || Restarts(hint, script, done) || Waits(before, script, done, Last(done)) || q > Last(done)
    ensures exists p: Priority :: IsTurn(before, hint, script, done, p)
  {
    hide Restarts;
    if done != [] && Waits(before, script, done, Last(done)) {
      assert IsTurn(before, hint, script, done, Last(done));
    } else {
      var p := Least(before, script, done, if done == [] || Restarts(hint, script, done) then -1 else Last(done), q);
      assert IsTurn(before, hint, script, done, p);
    }
  }

  lemma {:induction false} Least(before: seq<Queue>, script: Script, done: seq<Event>, low: int, q: nat)
    returns (p: nat)
    requires Waits(before, script, done, q) && q > low
    ensures low < p <= q && Waits(before, script, done, p)
    ensures forall r: nat :: low < r < p ==> !Waits(before, script, done, r)
    decreases q
  {
    hide Waits;
    if r: nat :| low < r < q && Waits(before, script, done, r) {
      p := Least(before, script, done, low, r);
    } else {
      p := q;
    }
  }

  /** No handler sends anything. */
  ghost predicate Quiet(script: Script)
  {
    forall i :: 0 <= i < |script| ==> script[i] == []
  }

  /** Silent handlers get their events sorted by priority. */
  lemma {:induction false} QuietSorted(before: seq<Queue>, hint: nat, script: Script, delivered: seq<Event>, i: nat,
                                       j: nat)
    requires Ordered(before, hint, script, delivered) && Quiet(script) && i <= j < |delivered|
    ensures delivered[i].prio <= delivered[j].prio
    decreases j
  {
    hide Restarts, Waits, Ordered, Quiet;
    if i < j {
      QuietSorted(before, hint, script, delivered, i, j - 1);
      if Switch(delivered, j) {
        AtSwitch(before, hint, script, delivered, j);
        QuietScan(hint, script, delivered[..j]);
      }
    }
  }

  lemma QuietScan(hint: nat, script: Script, done: seq<Event>)
    requires done != [] && Quiet(script)
    ensures !Restarts(hint, script, done)
  {
    QuietFrom(script, Begin(done), |done|);
  }

  lemma EventsNone()
    ensures Events([]) == []
  {
  }

  lemma {:induction false} QuietFrom(script: Script, a: nat, b: nat)
    requires Quiet(script)
    ensures SentFrom(script, a, b) == []
  {
    hide Events, Sent, Of;
    if a < b {
      QuietFrom(script, a, b - 1);
      EventsNone();
    }
  }

  // ---------------------------------------------------------------- an event that is passed over

  /** It is one priority's turn, and that is delivered. */
  lemma NextIs(before: seq<Queue>, hint: nat, script: Script, delivered: seq<Event>, d: nat, p: Priority)
    requires Ordered(before, hint, script, delivered) && Over(before, hint, script, delivered) && d <= |delivered|
    requires IsTurn(before, hint, script, delivered[..d], p)
    ensures d < |delivered| && delivered[d].prio == p
  {
    hide IsTurn, Over, Ordered;
    if d < |delivered| {
      TurnAt(before, hint, script, delivered, d);
      OneTurn(before, hint, script, delivered[..d], p, delivered[d].prio);
    } else {
      assert delivered[..d] == delivered;
      OverNow(before, hint, script, delivered, p);
    }
  }

  lemma TurnAt(before: seq<Queue>, hint: nat, script: Script, delivered: seq<Event>, d: nat)
    requires Ordered(before, hint, script, delivered) && d < |delivered|
    ensures IsTurn(before, hint, script, delivered[..d], delivered[d].prio)
  {
  }

  /** It is never the turn of two priorities. */
  lemma OneTurn(before: seq<Queue>, hint: nat, script: Script, done: seq<Event>, p: nat, q: nat)
    requires IsTurn(before, hint, script, done, p) && IsTurn(before, hint, script, done, q)
    ensures p == q
  {
    hide Waits, Restarts;
  }

  lemma OverNow(before: seq<Queue>, hint: nat, script: Script, delivered: seq<Event>, p: Priority)
    requires Over(before, hint, script, delivered)
    ensures !IsTurn(before, hint, script, delivered, p)
  {
  }

  const PASSED: Event := Event(4, 1)

  /** The second handler sends an event of priority 1. */
  const RUDE: Script := [[], [Send(PASSED, true)]]

  lemma RudeSends(n: nat)
    ensures Events(RUDE[0]) == [] && Events(RUDE[1]) == [PASSED]
    ensures Sent(RUDE, 0) == [] && Sent(RUDE, 1) == []
    ensures Sent(RUDE, n + 2) == [PASSED]
    ensures SentFrom(RUDE, 0, 1) == [] && SentFrom(RUDE, 1, 2) == [PASSED] && SentFrom(RUDE, 2, 3) == []
  {
    assert Events(RUDE[1][..0]) == [];
    assert Sent(RUDE, 1) == Sent(RUDE, 0) + [];
    assert Sent(RUDE, 2) == Sent(RUDE, 1) + [PASSED];
    RudeMore(n);
  }

  lemma {:induction false} RudeMore(n: nat)
    requires Sent(RUDE, 2) == [PASSED]
    ensures Sent(RUDE, n + 2) == [PASSED]
  {
    if n > 0 { RudeMore(n - 1); }
  }

  /** With events of priorities 0, 2 and 3 queued, the event of priority 1 is left, though it was there before the one
      of priority 3 was delivered. */
  lemma PassedOver(before: seq<Queue>, delivered: seq<Event>)
    requires Three(before) && Ordered(before, 0, RUDE, delivered) && Over(before, 0, RUDE, delivered)
    ensures |delivered| == 3 && delivered[0].prio == 0 && delivered[1].prio == 2 && delivered[2].prio == 3
    ensures Waits(before, RUDE, delivered[..2], 1) && Waits(before, RUDE, delivered, 1)
  {
    hide *;
    PassedFirst(before, delivered);
    PassedSecond(before, delivered);
    PassedThird(before, delivered);
    PassedEnd(before, delivered);
  }

  ghost predicate Three(before: seq<Queue>)
  {
    |before| == E_PRIO_NR && forall q: Priority :: |before[q].list| == if q == 0 || q == 2 || q == 3 then 1 else 0
  }

  lemma PassedFirst(before: seq<Queue>, delivered: seq<Event>)
    requires Three(before) && Ordered(before, 0, RUDE, delivered) && Over(before, 0, RUDE, delivered)
    ensures |delivered| >= 1 && delivered[0].prio == 0
  {
    RudeSends(0);
    hide Ordered, Over, Sent;
    assert delivered[..0] == [];
    assert IsTurn(before, 0, RUDE, [], 0);
    NextIs(before, 0, RUDE, delivered, 0, 0);
  }

  lemma PassedSecond(before: seq<Queue>, delivered: seq<Event>)
    requires Three(before) && Ordered(before, 0, RUDE, delivered) && Over(before, 0, RUDE, delivered)
    requires |delivered| >= 1 && delivered[0].prio == 0
    ensures |delivered| >= 2 && delivered[1].prio == 2
  {
    RudeSends(0);
    var done := delivered[..1];
    forall q: nat
      ensures |Of(done, q)| == if q == 0 then 1 else 0
    {
      CountNext(delivered, 0, q);
    }
    hide Ordered, Over, Sent, SentFrom, Of;
    assert done == [delivered[0]] && Begin(done) == 0;
    assert IsTurn(before, 0, RUDE, done, 2);
    NextIs(before, 0, RUDE, delivered, 1, 2);
  }

  lemma PassedThird(before: seq<Queue>, delivered: seq<Event>)
    requires Three(before) && Ordered(before, 0, RUDE, delivered) && Over(before, 0, RUDE, delivered)
    requires |delivered| >= 2 && delivered[0].prio == 0 && delivered[1].prio == 2
    ensures |delivered| >= 3 && delivered[2].prio == 3 && Waits(before, RUDE, delivered[..2], 1)
  {
    hide Ordered, Over, IsTurn, Waits;
    ThirdTurn(before, delivered[..2]);
    NextIs(before, 0, RUDE, delivered, 2, 3);
  }

  lemma ThirdTurn(before: seq<Queue>, done: seq<Event>)
    requires Three(before) && |done| == 2 && done[0].prio == 0 && done[1].prio == 2
    ensures IsTurn(before, 0, RUDE, done, 3) && Waits(before, RUDE, done, 1)
  {
    hide Waits, Restarts, Three;
    ThirdWaits(before, done);
    ThirdScan(done);
  }

  lemma ThirdWaits(before: seq<Queue>, done: seq<Event>)
    requires Three(before) && |done| == 2 && done[0].prio == 0 && done[1].prio == 2
    ensures forall q: nat :: Waits(before, RUDE, done, q) <==> q == 1 || q == 3
  {
    RudeSends(0);
    OnlyPassed();
    hide Of, Sent;
    assert done[..0] == [] && done[..2] == done;
    OfNothing();
    forall q: nat
      ensures Waits(before, RUDE, done, q) <==> q == 1 || q == 3
    {
      CountNext(done, 0, q);
      CountNext(done, 1, q);
    }
  }

  lemma OfNothing()
    ensures forall q: nat :: Of([], q) == []
  {
  }

  lemma ThirdScan(done: seq<Event>)
    requires |done| == 2 && done[0].prio == 0 && done[1].prio == 2
    ensures !Restarts(0, RUDE, done)
  {
    RudeSends(0);
    assert Begin(done) == 1;
    hide Sent, SentFrom, Begin;
  }

  lemma OnlyPassed()
    ensures forall q: nat :: |Of([PASSED], q)| == if q == 1 then 1 else 0
  {
    assert [PASSED][..0] == [];
  }

  lemma PassedEnd(before: seq<Queue>, delivered: seq<Event>)
    requires Three(before) && Ordered(before, 0, RUDE, delivered)
    requires |delivered| >= 3 && delivered[0].prio == 0 && delivered[1].prio == 2 && delivered[2].prio == 3
    ensures |delivered| == 3 && Waits(before, RUDE, delivered, 1)
  {
    hide Ordered, IsTurn, Waits;
    NoFourthTurn(before, delivered[..3]);
    if |delivered| > 3 {
      TurnAt(before, 0, RUDE, delivered, 3);
    }
    assert delivered[..3] == delivered;
  }

  lemma NoFourthTurn(before: seq<Queue>, done: seq<Event>)
    requires Three(before) && |done| == 3 && done[0].prio == 0 && done[1].prio == 2 && done[2].prio == 3
    ensures (forall p: nat :: !IsTurn(before, 0, RUDE, done, p)) && Waits(before, RUDE, done, 1)
  {
    hide Waits, Restarts, Three;
    FourthWaits(before, done);
    FourthScan(done);
  }

  lemma FourthWaits(before: seq<Queue>, done: seq<Event>)
    requires Three(before) && |done| == 3 && done[0].prio == 0 && done[1].prio == 2 && done[2].prio == 3
    ensures forall q: nat :: Waits(before, RUDE, done, q) <==> q == 1
  {
    RudeSends(1);
    OnlyPassed();
    hide Of, Sent;
    assert done[..0] == [] && done[..3] == done;
    OfNothing();
    forall q: nat
      ensures Waits(before, RUDE, done, q) <==> q == 1
    {
      CountNext(done, 0, q);
      CountNext(done, 1, q);
      CountNext(done, 2, q);
    }
  }

  lemma FourthScan(done: seq<Event>)
    requires |done| == 3 && done[0].prio == 0 && done[1].prio == 2 && done[2].prio == 3
    ensures !Restarts(0, RUDE, done)
  {
    RudeSends(1);
    assert Begin(done) == 2;
    hide Sent, SentFrom, Begin;
  }
}
