/** The local event listener of kernel/kern/event.c: one queue per priority, the hint `prio` and the pending
    flag. Handlers run with interrupts enabled, so any invocation may send any events back to the listener. */
module LocalEvents {
  import opened EventQueues
  import opened EventOrder

  class Listener {
    var pending: bool
    var prio: nat
    var count: nat
    var tbl: seq<Queue>

    ghost predicate Valid()
      reads this
    {
      && Shaped(tbl)
      && (forall k, i :: 0 <= k < |tbl| && 0 <= i < |tbl[k].list| ==> tbl[k].list[i].prio == k)
      && (pending ==> prio < E_PRIO_NR)
    }

    /** Every event of priority below `n` can be found: the flag is set and the hint is not past its queue. */
    ghost predicate Covered(n: nat)
      reads this
      requires Valid()
    {
      forall k :: 0 <= k < |tbl| && k < n && tbl[k].list != [] ==> pending && prio <= k
    }

    /** No event is lost: every event that is queued will be looked for. */
    ghost predicate Listening()
      reads this
      requires Valid()
    {
      Covered(E_PRIO_NR)
    }

    /** `event_listner_init` */
    constructor ()
      ensures Valid() && Listening() && !pending && forall k: Priority :: tbl[k].list == []
    {
      var empty := Queue([], 0);
      pending, prio, count := false, 0, 0;
      tbl := [empty, empty, empty, empty, empty, empty, empty, empty, empty];
    }

    /** `local_event_send` */
    method SendLocal(event: Event, isFIFO: bool, ghost n: nat)
      requires Valid() && Covered(n)
      modifies this
      ensures Valid() && Covered(n) && pending && count == old(count)
      ensures prio == if !old(pending) || old(prio) > event.prio then event.prio else old(prio)
      ensures forall k: Priority :: k != event.prio ==> tbl[k] == old(tbl)[k]
      ensures tbl[event.prio].list == if isFIFO then old(tbl)[event.prio].list + [event]
        else [event] + old(tbl)[event.prio].list
    {
      var p := event.prio;
      var q := tbl[p];
      if isFIFO {
        tbl := tbl[p := Queue(q.list + [event], q.count + 1)];
      } else {
        tbl := tbl[p := Queue([event] + q.list, q.count + 1)];
      }
      prio := if !pending || prio > p then p else prio;
      pending := true;
    }

    /** What a handler does to the listener: the sends of its script, one after the other. */
    method RunHandler(sends: seq<Send>, ghost before: seq<Queue>, ghost sent: seq<Event>, ghost delivered: seq<Event>,
                      ghost fifo: bool, ghost n: nat, ghost start: nat, ghost since: seq<Event>)
      requires Valid() && Covered(n) && Conserved(before, sent, delivered, tbl, fifo, n) && (fifo ==> AllFifo(sends))
      requires Heard(start, prio, pending, since)
      modifies this
      ensures Valid() && Covered(n) && count == old(count)
      ensures Heard(start, prio, pending, since + Events(sends))
      ensures Conserved(before, sent + Events(sends), delivered, tbl, fifo, n)
      ensures sends == [] ==> tbl == old(tbl) && pending == old(pending) && prio == old(prio)
    {
      hide Conserved, Of, Heard;
      var i := 0;
      assert sent + Events(sends[..0]) == sent && since + Events(sends[..0]) == since;
      while i < |sends|
        invariant 0 <= i <= |sends|
        invariant Valid() && Covered(n) && count == old(count)
        invariant Conserved(before, sent + Events(sends[..i]), delivered, tbl, fifo, n)
        invariant Heard(start, prio, pending, since + Events(sends[..i]))
        invariant sends == [] ==> tbl == old(tbl) && pending == old(pending) && prio == old(prio)
      {
        ghost var mid := tbl;
        HeardSend(start, prio, pending, since + Events(sends[..i]), sends[i].event);
        SendLocal(sends[i].event, sends[i].isFIFO, n);
        ConservedSend(before, sent + Events(sends[..i]), delivered, mid, tbl, fifo, n, sends[i].event);
        EventsSnoc(sends, i);
        Associative(sent, Events(sends[..i]), [sends[i].event]);
        Associative(since, Events(sends[..i]), [sends[i].event]);
        i := i + 1;
      }
      assert sends[..i] == sends;
    }

    /** One round of the inner loop of `local_event_listner_notify`: unlink the first event, run its handler. */
    method DeliverFirst(current: Priority, script: Script, done: seq<Event>, ghost before: seq<Queue>, ghost fifo: bool,
                        ghost start: nat, ghost first: nat)
      returns (delivered: seq<Event>)
      requires Valid() && Covered(current) && (fifo ==> ScriptFifo(script)) && tbl[current].list != []
      requires Conserved(before, Sent(script, |done|), done, tbl, fifo, current)
      requires first <= |done| && Heard(start, prio, pending, SentFrom(script, first, |done|))
      modifies this
      ensures done < delivered && Last(delivered) == current
      ensures Heard(start, prio, pending, SentFrom(script, first, |delivered|))
      ensures Valid() && Covered(current) && count == old(count)
      ensures |delivered| == |done| + 1 && Conserved(before, Sent(script, |delivered|), delivered, tbl, fifo, current)
      ensures |done| >= |script| ==> Total(tbl) < old(Total(tbl))
    {
      hide Conserved, Sent, Total, ScriptFifo, Heard;
      var q := tbl[current];
      var event := q.list[0];
      tbl := tbl[current := Queue(q.list[1..], q.count - 1)];
      TotalUpdate(old(tbl), current, tbl[current]);
      ConservedDeliver(before, Sent(script, |done|), done, old(tbl), tbl, fifo, current);
      SendsFifo(script, |done|);
      delivered := done + [event];
      RunHandler(SendsOf(script, |done|), before, Sent(script, |done|), delivered, fifo, current, start,
        SentFrom(script, first, |done|));
      SentNext(script, |done|);
    }

    /** The inner loop of `local_event_listner_notify`: empties the queue of one priority. */
    method DrainQueue(current: Priority, script: Script, done: seq<Event>, ghost before: seq<Queue>, ghost fifo: bool,
                      ghost hint: nat, ghost start: nat)
      returns (delivered: seq<Event>)
      requires Valid() && Covered(current) && (fifo ==> ScriptFifo(script))
      requires Conserved(before, Sent(script, |done|), done, tbl, fifo, current)
      requires Ordered(before, hint, script, done) && prio > start
      requires tbl[current].list != [] ==> Ready(before, hint, script, done, current)
      modifies this
      ensures Valid() && Covered(current + 1) && count == old(count)
      ensures Conserved(before, Sent(script, |delivered|), delivered, tbl, fifo, current + 1)
      ensures |done| == |delivered| ==> tbl == old(tbl) && pending == old(pending) && prio == old(prio)
      ensures |done| < |delivered| ==> Less(script, |done|, old(tbl), |delivered|, tbl)
      ensures Drained(before, hint, script, done, delivered, current, start, prio, pending)
      ensures tbl[current].list == [] && (old(tbl[current].list) == [] ==> delivered == done)
    {
      hide Conserved, Sent, Total, ScriptFifo, Heard, Ordered, Ready, Drained, SentFrom;
      delivered := done;
      DrainedNone(before, hint, script, done, current, start, prio, pending);
      while tbl[current].count != 0
        invariant Valid() && Covered(current) && count == old(count) && |done| <= |delivered|
        invariant Conserved(before, Sent(script, |delivered|), delivered, tbl, fifo, current)
        invariant |done| == |delivered| ==> delivered == done && tbl == old(tbl)
        invariant |done| == |delivered| ==> pending == old(pending) && prio == old(prio)
        invariant |done| < |delivered| ==> Less(script, |done|, old(tbl), |delivered|, tbl)
        invariant |done| < |delivered| ==> old(tbl[current].list) != []
        invariant Drained(before, hint, script, done, delivered, current, start, prio, pending)
        decreases Left(script, |delivered|), Total(tbl)
      {
        ghost var so, qs, was, flag := delivered, tbl, prio, pending;
        DrainedHeard(before, hint, script, done, so, current, start, prio, pending);
        delivered := DeliverFirst(current, script, delivered, before, fifo, start, |done|);
        DrainedMore(before, hint, script, done, so, delivered, current, start, was, flag, prio, pending, qs, fifo,
          current);
      }
      ConservedMore(before, Sent(script, |delivered|), delivered, tbl, fifo, current);
    }

    /** `local_event_listner_notify`, called when an event is pending. Whatever the handlers send: it
        terminates; no event is lost afterwards; every event is delivered at most once, and those queued at
        the call exactly once; events sent in FIFO mode are delivered in the order of their sends, priority
        by priority. */
    method Notify(script: Script) returns (delivered: seq<Event>)
      requires Valid() && Listening() && pending
      modifies this
      ensures Valid() && Listening()
      ensures Conserved(old(tbl), Sent(script, |delivered|), delivered, tbl, ScriptFifo(script), E_PRIO_NR)
      ensures count == old(count) + |delivered|
      ensures delivered == [] ==> tbl == old(tbl) && !pending
      ensures delivered != [] ==> Less(script, 0, old(tbl), |delivered|, tbl)
      ensures Ordered(old(tbl), old(prio), script, delivered) && Over(old(tbl), old(prio), script, delivered)
      ensures forall q: nat :: q < E_PRIO_NR ==> (Waits(old(tbl), script, delivered, q) <==> tbl[q].list != [])
    {
      SentNone(script);
      hide Conserved, Total, ScriptFifo, Sent, Scanning, Ordered, Over, Ready, Drained, Waits, Lowest;
      delivered := [];
      ghost var fifo := ScriptFifo(script);
      pending := false;
      var start: nat := prio;
      prio := prio + 1;
      var current: nat := start;
      ConservedStart(tbl, current);
      ScanStart(tbl, script, start);
      OrderedNone(tbl, start, script);
      ghost var hint, again := start, false;
      while current < E_PRIO_NR
        invariant Scanning(old(tbl), hint, script, delivered, tbl, current, start, prio, again)
        invariant Ordered(old(tbl), hint, script, delivered)
        invariant Valid() && start <= current <= E_PRIO_NR && Covered(current) && count == old(count)
        invariant prio <= start ==> start < current
        invariant Conserved(old(tbl), Sent(script, |delivered|), delivered, tbl, fifo, current)
        invariant delivered == [] ==> tbl == old(tbl) && !pending
        invariant delivered != [] ==> Less(script, 0, old(tbl), |delivered|, tbl)
        decreases Left(script, |delivered|), Total(tbl), if prio <= start then 1 else 0, E_PRIO_NR - current
      {
        ghost var head := current;
        if prio <= start {
          ScanAgain(old(tbl), hint, script, delivered, tbl, current, start, prio, again);
          again := true;
          start := prio;
          prio := prio + 1;
          current := start;
          ConservedFewer(old(tbl), Sent(script, |delivered|), delivered, tbl, fifo, head, current);
        }
        if tbl[current].list != [] {
          ScanTurn(old(tbl), hint, script, delivered, tbl, current, start, prio, again, fifo, current);
        } else {
          ScanOn(old(tbl), hint, script, delivered, tbl, current, start, prio, again);
        }
        ghost var done := delivered;
        delivered := DrainQueue(current, script, delivered, old(tbl), fifo, hint, start);
        DrainedOrdered(old(tbl), hint, script, done, delivered, current, start, prio, pending);
        if |done| < |delivered| {
          ScanDrained(old(tbl), hint, script, done, delivered, tbl, current, start, prio, pending);
          again := false;
        }
        current := current + 1;
      }
      ScanEnd(old(tbl), hint, script, delivered, tbl, start, prio, again, fifo, current);
      WaitsAll(old(tbl), script, delivered, tbl, fifo, current);
      count := count + |delivered|;
    }

    /** Notifications as long as the flag is set: when the handlers' sends are finite, this ends, and then
        every event that was queued or sent has been delivered exactly once. */
    method NotifyAll(script: Script) returns (delivered: seq<Event>)
      requires Valid() && Listening()
      modifies this
      ensures Valid() && !pending && forall k: Priority :: tbl[k].list == []
      ensures Conserved(old(tbl), Sent(script, |delivered|), delivered, tbl, ScriptFifo(script), 0)
    {
      SentNone(script);
      hide Conserved, Total, ScriptFifo, Sent, Rest, Left;
      delivered := [];
      ConservedStart(tbl, 0);
      ghost var fifo := ScriptFifo(script);
      while pending
        invariant Valid() && Listening()
        invariant Conserved(old(tbl), Sent(script, |delivered|), delivered, tbl, fifo, 0)
        decreases Left(script, |delivered|), Total(tbl), pending
      {
        var rest := Rest(script, |delivered|);
        ghost var mid := tbl;
        var more := Notify(rest);
        SentConcat(script, |delivered|, |more|);
        RestFifo(script, |delivered|);
        LessRest(script, |delivered|, mid, |more|, tbl);
        ConservedThen(old(tbl), Sent(script, |delivered|), delivered, mid, Sent(rest, |more|), more, tbl, fifo,
          ScriptFifo(rest));
        delivered := delivered + more;
      }
    }

    /** What `remote_event_listner_notify` does with the events it takes: each one is put in front of its queue. */
    method HandOver(batch: seq<Event>)
      requires Valid() && Listening()
      modifies this
      ensures Valid() && Listening() && count == old(count)
      ensures forall p: Priority :: tbl[p].list == Reversed(Of(batch, p)) + old(tbl)[p].list
    {
      hide Conserved, Ordered, Over, Sent;
      var i := 0;
      assert batch[..0] == [];
      while i < |batch|
        invariant i <= |batch| && Valid() && Listening() && count == old(count)
        invariant forall p: Priority :: tbl[p].list == Reversed(Of(batch[..i], p)) + old(tbl)[p].list
      {
        hide Of, Reversed;
        ghost var mid := tbl;
        SendLocal(batch[i], false, E_PRIO_NR);
        assert batch[..i + 1] == batch[..i] + [batch[i]];
        forall p: Priority
          ensures tbl[p].list == Reversed(Of(batch[..i + 1], p)) + old(tbl)[p].list
        {
          PushFront(batch[..i], batch[i], p, old(tbl)[p].list, mid[p].list, tbl[p].list);
        }
        i := i + 1;
      }
      assert batch[..i] == batch;
    }

    /** A notification with handlers that send nothing: every queue is delivered as it stands. */
    method NotifyQuiet() returns (delivered: seq<Event>)
      requires Valid() && Listening()
      modifies this
      ensures Valid() && Listening()
      ensures forall p: Priority :: tbl[p].list == [] && Of(delivered, p) == old(tbl)[p].list
      ensures forall i, j :: 0 <= i < j < |delivered| ==> delivered[i].prio <= delivered[j].prio
    {
      delivered := [];
      if pending {
        hide Ordered, Over;
        delivered := Notify([]);
        forall i, j | 0 <= i < j < |delivered|
          ensures delivered[i].prio <= delivered[j].prio
        {
          QuietSorted(old(tbl), old(prio), [], delivered, i, j);
        }
        forall p: Priority
          ensures tbl[p].list == [] && Of(delivered, p) == old(tbl)[p].list
        {
          QuietLane(old(tbl), delivered, tbl, p);
        }
      }
    }
  }

  /** An event that is passed over: the handler of the event of priority 2 sends one of priority 1, less urgent than the
      first one delivered; the event of priority 3 goes first, and the one sent is left for the next notification. */
  method PassedExample() returns (delivered: seq<Event>, left: seq<Event>)
    ensures |delivered| == 3 && delivered[0].prio == 0 && delivered[1].prio == 2 && delivered[2].prio == 3
    ensures left == [PASSED] && PASSED.prio == 1
  {
    hide Ordered, Over, Conserved, Sent, Of, Waits;
    var el := new Listener();
    el.SendLocal(Event(1, 0), true, E_PRIO_NR);
    el.SendLocal(Event(2, 2), true, E_PRIO_NR);
    el.SendLocal(Event(3, 3), true, E_PRIO_NR);
    ghost var before := el.tbl;
    assert Three(before);
    delivered := el.Notify(RUDE);
    PassedOver(before, delivered);
    left := el.tbl[1].list;
    PassedLeft(before, delivered, el.tbl);
  }

  lemma PassedLeft(before: seq<Queue>, delivered: seq<Event>, after: seq<Queue>)
    requires Three(before) && |delivered| == 3 && forall i :: 0 <= i < 3 ==> delivered[i].prio != 1
    requires Conserved(before, Sent(RUDE, 3), delivered, after, true, E_PRIO_NR)
    ensures after[1].list == [PASSED]
  {
    RudeSends(1);
    OfNone(delivered, 1);
    assert Lane(1, before, Sent(RUDE, 3), delivered, after, true);
    assert Of([PASSED], 1) == [PASSED] by { assert [PASSED][..0] == []; }
    hide Of, Sent, Conserved;
    assert before[1].list == [] && [] + after[1].list == after[1].list && [] + [PASSED] == [PASSED];
  }
}
