/** Events, priority queues and the accounting of what is sent, delivered and still queued (kernel/kern/event.c). What
    handlers send is given by a script whose i-th entry lists the sends made during the i-th invocation. */
module EventQueues {

  const E_PRIO_NR: nat := 9

  type Priority = p: nat | p < E_PRIO_NR

  datatype Event = Event(id: nat, prio: Priority)

  datatype Send = Send(event: Event, isFIFO: bool)

  /** `struct event_list_s` */
  datatype Queue = Queue(list: seq<Event>, count: nat)

  type Script = seq<seq<Send>>

  // Sequences of events

  function Events(sends: seq<Send>): (r: seq<Event>)
    ensures |r| == |sends|
  {
    if sends == [] then [] else Events(sends[..|sends| - 1]) + [sends[|sends| - 1].event]
  }

  /** The events sent during the first `n` handler invocations. */
  function Sent(script: Script, n: nat): seq<Event>
  {
    if n == 0 then [] else Sent(script, n - 1) + (if n <= |script| then Events(script[n - 1]) else [])
  }

  /** The events of priority `p`, in order. */
  function Of(es: seq<Event>, p: nat): seq<Event>
  {
    if es == [] then [] else Of(es[..|es| - 1], p) + (if es[|es| - 1].prio == p then [es[|es| - 1]] else [])
  }

  ghost predicate AllFifo(sends: seq<Send>)
  {
    forall i :: 0 <= i < |sends| ==> sends[i].isFIFO
  }

  ghost predicate ScriptFifo(script: Script)
  {
    forall i :: 0 <= i < |script| ==> AllFifo(script[i])
  }

  lemma OfSnoc(es: seq<Event>, e: Event, p: nat)
    ensures Of(es + [e], p) == Of(es, p) + if e.prio == p then [e] else []
  {
    assert (es + [e])[..|es|] == es;
  }

  lemma {:induction false} OfConcat(a: seq<Event>, b: seq<Event>, p: nat)
    ensures Of(a + b, p) == Of(a, p) + Of(b, p)
  {
    if b == [] {
      assert a + b == a;
    } else {
      var front := b[..|b| - 1];
      OfConcat(a, front, p);
      assert (a + b)[..|a + b| - 1] == a + front;
    }
  }

  /** The events in reverse: each one put in front of those before it. */
  function Reversed(es: seq<Event>): (r: seq<Event>)
    ensures |r| == |es| && multiset(r) == multiset(es)
  {
    if es == [] then []
    else
      assert es == es[..|es| - 1] + [es[|es| - 1]];
      [es[|es| - 1]] + Reversed(es[..|es| - 1])
  }

  lemma ReversedSnoc(es: seq<Event>, e: Event)
    ensures Reversed(es + [e]) == [e] + Reversed(es)
  {
    assert (es + [e])[..|es|] == es;
  }

  /** One event more in front of its queue. */
  lemma PushFront(es: seq<Event>, e: Event, p: nat, before: seq<Event>, mid: seq<Event>, after: seq<Event>)
    requires mid == Reversed(Of(es, p)) + before && after == if e.prio == p then [e] + mid else mid
    ensures after == Reversed(Of(es + [e], p)) + before
  {
    hide *;
    OfSnoc(es, e, p);
    if e.prio == p {
      ReversedSnoc(Of(es, p), e);
      Associative([e], Reversed(Of(es, p)), before);
    } else {
      assert Of(es, p) + [] == Of(es, p);
    }
  }

  lemma EventsSnoc(sends: seq<Send>, n: nat)
    requires n < |sends|
    ensures Events(sends[..n + 1]) == Events(sends[..n]) + [sends[n].event]
  {
    assert sends[..n + 1][..n] == sends[..n];
  }

  // Queues

  function Total(qs: seq<Queue>): nat
  {
    if qs == [] then 0 else Total(qs[1..]) + |qs[0].list|
  }

  lemma {:induction false} TotalUpdate(qs: seq<Queue>, k: nat, q: Queue)
    requires k < |qs|
    ensures Total(qs[k := q]) + |qs[k].list| == Total(qs) + |q.list|
  {
    if k == 0 {
      assert qs[0 := q][1..] == qs[1..];
    } else {
      TotalUpdate(qs[1..], k - 1, q);
      assert qs[k := q][1..] == qs[1..][k - 1 := q];
    }
  }

  /** One queue per priority, each with a true count. */
  ghost predicate Shaped(qs: seq<Queue>)
  {
    && |qs| == E_PRIO_NR
    && forall k :: 0 <= k < |qs| ==> qs[k].count == |qs[k].list|
  }

  // One priority: `b` was queued before, `s` was sent and `d` delivered meanwhile, `a` is queued now

  /** Every event is in exactly one place: what was there and what was sent is delivered or still queued. */
  ghost predicate Bag(b: seq<Event>, s: seq<Event>, d: seq<Event>, a: seq<Event>)
  {
    multiset(d) + multiset(a) == multiset(b) + multiset(s)
  }

  lemma BagSend(b: seq<Event>, s: seq<Event>, d: seq<Event>, a: seq<Event>, e: Event)
    requires Bag(b, s, d, a)
    ensures Bag(b, s + [e], d, a + [e]) && Bag(b, s + [e], d, [e] + a)
  {
    assert multiset(s + [e]) == multiset(s) + multiset{e};
    assert multiset(a + [e]) == multiset([e] + a) == multiset(a) + multiset{e};
    assert multiset(d) + (multiset(a) + multiset{e}) == (multiset(b) + multiset(s)) + multiset{e};
  }

  lemma BagDeliver(b: seq<Event>, s: seq<Event>, d: seq<Event>, a: seq<Event>)
    requires Bag(b, s, d, a) && a != []
    ensures Bag(b, s, d + [a[0]], a[1..])
  {
    assert a == [a[0]] + a[1..];
    assert multiset(d + [a[0]]) == multiset(d) + multiset{a[0]};
  }

  /** The same, in order: first come, first served. */
  ghost predicate Fifo(b: seq<Event>, s: seq<Event>, d: seq<Event>, a: seq<Event>)
  {
    d + a == b + s
  }

  lemma FifoSend(b: seq<Event>, s: seq<Event>, d: seq<Event>, a: seq<Event>, e: Event)
    requires Fifo(b, s, d, a)
    ensures Fifo(b, s + [e], d, a + [e])
  {
    assert d + (a + [e]) == (d + a) + [e];
    assert b + (s + [e]) == (b + s) + [e];
  }

  lemma FifoDeliver(b: seq<Event>, s: seq<Event>, d: seq<Event>, a: seq<Event>)
    requires Fifo(b, s, d, a) && a != []
    ensures Fifo(b, s, d + [a[0]], a[1..])
  {
    assert d + a == (d + [a[0]]) + a[1..];
  }

  /** All that is queued now was sent meanwhile: everything from before has been delivered. */
  ghost predicate OnlyNew(s: seq<Event>, a: seq<Event>)
  {
    multiset(a) <= multiset(s)
  }

  lemma OnlyNewSend(s: seq<Event>, a: seq<Event>, e: Event)
    requires OnlyNew(s, a)
    ensures OnlyNew(s + [e], a + [e]) && OnlyNew(s + [e], [e] + a)
  {
    assert multiset(s + [e]) == multiset(s) + multiset{e};
    assert multiset(a + [e]) == multiset([e] + a) == multiset(a) + multiset{e};
  }

  // All priorities

  ghost predicate Lane(p: Priority, before: seq<Queue>, sent: seq<Event>, delivered: seq<Event>, after: seq<Queue>,
                       fifo: bool)
    requires |before| == |after| == E_PRIO_NR
  {
    && Bag(before[p].list, Of(sent, p), Of(delivered, p), after[p].list)
    && (fifo ==> Fifo(before[p].list, Of(sent, p), Of(delivered, p), after[p].list))
  }

  /** Every priority's events are conserved, and kept in order if all sends are; the queues of priority below
      `n` hold new events only. */
  ghost predicate Conserved(before: seq<Queue>, sent: seq<Event>, delivered: seq<Event>, after: seq<Queue>, fifo: bool,
                            n: nat)
  {
    && |before| == |after| == E_PRIO_NR
    && (forall p: Priority :: Lane(p, before, sent, delivered, after, fifo))
    && (forall p: Priority :: p < n ==> OnlyNew(Of(sent, p), after[p].list))
  }

  lemma ConservedStart(before: seq<Queue>, n: nat)
    requires |before| == E_PRIO_NR
    requires forall p: Priority :: p < n ==> before[p].list == []
    ensures forall fifo :: Conserved(before, [], [], before, fifo, n)
  {
    forall p: Priority, fifo: bool
      ensures Lane(p, before, [], [], before, fifo)
    {
      assert [] + before[p].list == before[p].list == before[p].list + [];
    }
  }

  lemma ConservedMore(before: seq<Queue>, sent: seq<Event>, delivered: seq<Event>, after: seq<Queue>, fifo: bool,
                      k: Priority)
    requires Conserved(before, sent, delivered, after, fifo, k) && after[k].list == []
    ensures Conserved(before, sent, delivered, after, fifo, k + 1)
  {
  }

  lemma ConservedFewer(before: seq<Queue>, sent: seq<Event>, delivered: seq<Event>, after: seq<Queue>, fifo: bool,
                       n: nat, m: nat)
    requires Conserved(before, sent, delivered, after, fifo, n) && m <= n
    ensures Conserved(before, sent, delivered, after, fifo, m)
  {
  }

  lemma LaneSend(p: Priority, before: seq<Queue>, sent: seq<Event>, delivered: seq<Event>, mid: seq<Queue>,
                 after: seq<Queue>, fifo: bool, e: Event)
    requires |before| == |mid| == |after| == E_PRIO_NR && Lane(p, before, sent, delivered, mid, fifo)
    requires p != e.prio ==> after[p] == mid[p]
    requires p == e.prio ==> after[p].list == mid[p].list + [e] || (!fifo && after[p].list == [e] + mid[p].list)
    ensures Lane(p, before, sent + [e], delivered, after, fifo)
    ensures OnlyNew(Of(sent, p), mid[p].list) ==> OnlyNew(Of(sent + [e], p), after[p].list)
  {
    var b, s, d, a := before[p].list, Of(sent, p), Of(delivered, p), mid[p].list;
    OfSnoc(sent, e, p);
    hide Bag, Fifo, OnlyNew, Of;
    if p == e.prio {
      BagSend(b, s, d, a, e);
      if fifo {
        FifoSend(b, s, d, a, e);
      }
      if OnlyNew(s, a) {
        OnlyNewSend(s, a, e);
      }
    } else {
      assert s + [] == s;
    }
  }

  lemma ConservedSend(before: seq<Queue>, sent: seq<Event>, delivered: seq<Event>, mid: seq<Queue>, after: seq<Queue>,
                      fifo: bool, n: nat, e: Event)
    requires Conserved(before, sent, delivered, mid, fifo, n)
    requires |after| == E_PRIO_NR && forall p: Priority :: p != e.prio ==> after[p] == mid[p]
    requires after[e.prio].list == mid[e.prio].list + [e] || (!fifo && after[e.prio].list == [e] + mid[e.prio].list)
    ensures Conserved(before, sent + [e], delivered, after, fifo, n)
  {
    hide OnlyNew, Lane, Of;
    forall p: Priority
      ensures Lane(p, before, sent + [e], delivered, after, fifo)
      ensures p < n ==> OnlyNew(Of(sent + [e], p), after[p].list)
    {
      LaneSend(p, before, sent, delivered, mid, after, fifo, e);
    }
  }

  lemma ConservedDeliver(before: seq<Queue>, sent: seq<Event>, delivered: seq<Event>, mid: seq<Queue>,
                         after: seq<Queue>, fifo: bool, k: Priority)
    requires Conserved(before, sent, delivered, mid, fifo, k)
    requires mid[k].list != [] && mid[k].list[0].prio == k
    requires |after| == E_PRIO_NR && forall p: Priority :: p != k ==> after[p] == mid[p]
    requires after[k].list == mid[k].list[1..]
    ensures Conserved(before, sent, delivered + [mid[k].list[0]], after, fifo, k)
  {
    var e := mid[k].list[0];
    hide OnlyNew, Bag, Fifo;
    forall p: Priority
      ensures Lane(p, before, sent, delivered + [e], after, fifo)
    {
      OfSnoc(delivered, e, p);
      assert Lane(p, before, sent, delivered, mid, fifo);
      hide Of;
      var b, s, d, a := before[p].list, Of(sent, p), Of(delivered, p), mid[p].list;
      if p == k {
        BagDeliver(b, s, d, a);
        if fifo {
          FifoDeliver(b, s, d, a);
        }
      } else {
        assert d + [] == d;
      }
    }
  }

  /** The rest of the script after `n` invocations. */
  function Left(script: Script, n: nat): nat
  {
    if n < |script| then |script| - n else 0
  }

  function SendsOf(script: Script, n: nat): seq<Send>
  {
    if n < |script| then script[n] else []
  }

  lemma SendsFifo(script: Script, n: nat)
    ensures ScriptFifo(script) ==> AllFifo(SendsOf(script, n))
  {
  }

  lemma SentNext(script: Script, n: nat)
    ensures Sent(script, n + 1) == Sent(script, n) + Events(SendsOf(script, n))
  {
  }

  /** From `n` to `m` invocations part of the script has been used up, or, with none left, part of the queues. */
  ghost predicate Less(script: Script, n: nat, before: seq<Queue>, m: nat, after: seq<Queue>)
  {
    Left(script, m) < Left(script, n) || (Left(script, n) == 0 && Left(script, m) == 0 && Total(after) < Total(before))
  }

  // Runs one after the other

  lemma Associative(a: seq<Event>, b: seq<Event>, c: seq<Event>)
    ensures (a + b) + c == a + (b + c)
  {
  }

  lemma RestSends(script: Script, n: nat, m: nat)
    ensures SendsOf(Rest(script, n), m) == SendsOf(script, n + m)
  {
  }

  lemma {:induction false} SentConcat(script: Script, n: nat, m: nat)
    ensures Sent(script, n + m) == Sent(script, n) + Sent(Rest(script, n), m)
    decreases m
  {
    hide *;
    var rest := Rest(script, n);
    if m == 0 {
      assert n + m == n;
      SentNone(rest);
    } else {
      SentConcat(script, n, m - 1);
      SentNext(script, n + m - 1);
      SentNext(rest, m - 1);
      RestSends(script, n, m - 1);
      Associative(Sent(script, n), Sent(rest, m - 1), Events(SendsOf(rest, m - 1)));
    }
  }

  lemma SentNone(script: Script)
    ensures Sent(script, 0) == []
  {
  }

  function Rest(script: Script, n: nat): Script
  {
    if n < |script| then script[n..] else []
  }

  lemma RestFifo(script: Script, n: nat)
    ensures ScriptFifo(script) ==> ScriptFifo(Rest(script, n))
  {
  }

  lemma LessRest(script: Script, n: nat, before: seq<Queue>, m: nat, after: seq<Queue>)
    ensures Less(Rest(script, n), 0, before, m, after) ==> Less(script, n, before, n + m, after)
  {
  }

  lemma BagThen(b: seq<Event>, s: seq<Event>, d: seq<Event>, m: seq<Event>, s': seq<Event>, d': seq<Event>,
                a: seq<Event>)
    requires Bag(b, s, d, m) && Bag(m, s', d', a)
    ensures Bag(b, s + s', d + d', a)
  {
    assert multiset(s + s') == multiset(s) + multiset(s') && multiset(d + d') == multiset(d) + multiset(d');
    var md, md', ma, mm, mb, ms, ms' := multiset(d), multiset(d'), multiset(a), multiset(m), multiset(b), multiset(s),
      multiset(s');
    assert (md + md') + ma == md + (md' + ma) == md + (mm + ms') == (md + mm) + ms' == (mb + ms) + ms' ==
      mb + (ms + ms');
  }

  lemma FifoThen(b: seq<Event>, s: seq<Event>, d: seq<Event>, m: seq<Event>, s': seq<Event>, d': seq<Event>,
                 a: seq<Event>)
    requires Fifo(b, s, d, m) && Fifo(m, s', d', a)
    ensures Fifo(b, s + s', d + d', a)
  {
    assert (d + d') + a == d + (d' + a) == (d + m) + s' == b + (s + s');
  }

  lemma ConservedThen(before: seq<Queue>, sent: seq<Event>, delivered: seq<Event>, mid: seq<Queue>, sent': seq<Event>,
                      delivered': seq<Event>, after: seq<Queue>, fifo: bool, fifo': bool)
    requires Conserved(before, sent, delivered, mid, fifo, 0)
    requires Conserved(mid, sent', delivered', after, fifo', E_PRIO_NR)
    requires fifo ==> fifo'
    ensures Conserved(before, sent + sent', delivered + delivered', after, fifo, 0)
  {
    hide OnlyNew, Bag, Fifo;
    forall p: Priority
      ensures Lane(p, before, sent + sent', delivered + delivered', after, fifo)
    {
      assert Lane(p, before, sent, delivered, mid, fifo) && Lane(p, mid, sent', delivered', after, fifo');
      OfConcat(sent, sent', p);
      OfConcat(delivered, delivered', p);
      hide Of;
      var b, s, d, m := before[p].list, Of(sent, p), Of(delivered, p), mid[p].list;
      var s', d', a := Of(sent', p), Of(delivered', p), after[p].list;
      BagThen(b, s, d, m, s', d', a);
      if fifo {
        FifoThen(b, s, d, m, s', d', a);
      }
    }
  }

  lemma {:induction false} SentNothing(n: nat)
    ensures Sent([], n) == []
  {
    if n > 0 { SentNothing(n - 1); }
  }

  lemma QuietLane(before: seq<Queue>, delivered: seq<Event>, after: seq<Queue>, p: Priority)
    requires Conserved(before, Sent([], |delivered|), delivered, after, true, E_PRIO_NR)
    ensures after[p].list == [] && Of(delivered, p) == before[p].list
  {
    SentNothing(|delivered|);
    assert Lane(p, before, [], delivered, after, true) && OnlyNew(Of([], p), after[p].list);
    var d, a, b := Of(delivered, p), after[p].list, before[p].list;
    assert |multiset(a)| == |a| && multiset(a) == multiset{};
    assert d + a == d && b + [] == b;
  }
}
