/** The read-write lock of kernel/kern/rwlock.c. Each operation runs under the ticket lock `rwlock->lock` and is
    one atomic step; a thread that waits is woken as a holder. */
module RwLocks {
  import opened Collections

  datatype Error = Ok | EBUSY | EPERM

  /** A call, and who makes it. An unlock names a thread whose hold ends instead: the code counts holds and lets any
      thread give one back. */
  datatype Call = Wr(me: nat) | Rd(me: nat) | TryWr(me: nat) | TryRd(me: nat) | Unlock(holder: nat)

  /** The holds, several to a thread if it has locked several times, and the threads that sleep. */
  datatype Users = Users(readers: multiset<nat>, writers: multiset<nat>, rdWait: seq<nat>, wrWait: seq<nat>)

  /** A thread that sleeps calls nothing; a hold that ends exists, unless there is none. */
  predicate Legal(u: Users, c: Call)
  {
    if c.Unlock? then Free(u) || c.holder in u.readers + u.writers
    else c.me !in u.rdWait && c.me !in u.wrWait
  }

  /** What each call does: a lock is taken if it can be, otherwise the caller sleeps at the end of its queue or, if it
      only tries, nothing happens. */
  ghost function After(u: Users, c: Call): Users
  {
    match c
    case Wr(me) =>
      if Free(u) then u.(writers := multiset{me}) else u.(wrWait := u.wrWait + [me])
    case TryWr(me) => if Free(u) then u.(writers := multiset{me}) else u
    case Rd(me) =>
      if u.writers == multiset{} && u.wrWait == [] then u.(readers := u.readers + multiset{me})
      else u.(rdWait := u.rdWait + [me])
    case TryRd(me) =>
      if u.writers == multiset{} && u.wrWait == [] then u.(readers := u.readers + multiset{me}) else u
    case Unlock(holder) => if Free(u) then u else Released(u, holder)
  }

  /** Each call is answered in the state the one before has left; a thread that sleeps makes none. */
  ghost predicate Answers(calls: seq<Call>, history: seq<Users>)
  {
    && |history| == |calls| + 1
    && forall i :: 0 <= i < |calls| ==>
         history[i + 1] == if Legal(history[i], calls[i]) then After(history[i], calls[i]) else history[i]
  }

  /** What one call can do to the writers' queue and to the holders: while writers wait, either the queue
      only gets longer and nobody gets in, or its first writer gets in alone. */
  ghost predicate Moves(u: Users, v: Users)
  {
    u.wrWait != [] ==>
      || (u.wrWait <= v.wrWait && v.readers <= u.readers && v.writers <= u.writers)
      || (u.wrWait[1..] == v.wrWait && Alone(v, u.wrWait[0]))
  }

  /** Each state of the run moves to the next. `RwLock.Run` produces such runs. */
  ghost predicate RunOf(run: seq<Users>)
  {
    run != [] && forall i :: 0 <= i < |run| - 1 ==> Moves(run[i], run[i + 1])
  }

  ghost predicate Alone(u: Users, writer: nat)
  {
    u.writers == multiset{writer} && u.readers == multiset{}
  }

  /** Nobody has got in since u but writers queued in u before position p. */
  ghost predicate Before(u: Users, v: Users, p: nat)
    requires p <= |u.wrWait|
  {
    v.readers <= u.readers && v.writers <= u.writers + multiset(u.wrWait[..p])
  }

  lemma BeforeNext(u: Users, v: Users, w: Users, p: nat, served: nat)
    requires p <= |u.wrWait| && Before(u, v, p)
    requires (w.readers <= v.readers && w.writers <= v.writers) ||
      (served < p && Alone(w, u.wrWait[served]))
    ensures Before(u, w, p)
  {
    if served < p {
      assert u.wrWait[..p][served] == u.wrWait[served];
    }
  }

  lemma AfterMoves(u: Users, c: Call)
    requires Legal(u, c) && (Free(u) ==> u.wrWait == [])
    ensures Moves(u, After(u, c))
  {
  }

  lemma OneAnswer(calls: seq<Call>, i: nat, history: seq<Users>, v: Users)
    requires i < |calls| && Answers(calls[..i], history) && RunOf(history)
    requires var u := history[|history| - 1];
      if Legal(u, calls[i]) then v == After(u, calls[i]) && Moves(u, v) else v == u
    ensures Answers(calls[..i + 1], history + [v]) && RunOf(history + [v])
  {
    hide Legal, After;
    assert calls[..i + 1] == calls[..i] + [calls[i]];
  }

  /** `served` of the writers queued at first have got the lock up to the one at position `p`. Once that one has, it
      was the only holder; until then it is still queued behind the others of them, and nobody else has got in: no
      reader, and no writer that came after. */
  ghost predicate InTurn(run: seq<Users>, p: nat, served: nat)
    requires run != [] && p < |run[0].wrWait|
  {
    var q := run[0].wrWait;
    if served == p + 1 then exists i :: 0 <= i < |run| && Alone(run[i], q[p])
    else
      && served <= p && q[served..] <= run[|run| - 1].wrWait
      && forall i :: 0 <= i < |run| ==> Before(run[0], run[i], p)
  }

  ghost predicate NotOvertaken(run: seq<Users>, p: nat)
    requires run != [] && p < |run[0].wrWait|
  {
    exists served: nat :: InTurn(run, p, served)
  }

  lemma NextTurn(first: Users, u: Users, v: Users, p: nat, served: nat) returns (served': nat)
    requires served <= p < |first.wrWait| && first.wrWait[served..] <= u.wrWait && Moves(u, v) && Before(first, u, p)
    ensures served' == served || served' == served + 1
    ensures if served' == p + 1 then Alone(v, first.wrWait[p])
            else first.wrWait[served'..] <= v.wrWait && Before(first, v, p)
  {
    var q := first.wrWait;
    assert u.wrWait[0] == q[served];
    served' := served;
    if !(u.wrWait <= v.wrWait && v.readers <= u.readers && v.writers <= u.writers) {
      assert q[served + 1..] == q[served..][1..] <= v.wrWait;
      served' := served + 1;
    }
    hide Before;
    if served' <= p { BeforeNext(first, u, v, p, served); }
  }

  /** One more state of the run. */
  lemma OneMore(run: seq<Users>, p: nat, served: nat) returns (served': nat)
    requires |run| > 1 && Moves(run[|run| - 2], run[|run| - 1]) && p < |run[0].wrWait|
    requires InTurn(run[..|run| - 1], p, served)
    ensures InTurn(run, p, served')
  {
    hide Before, Moves, Alone;
    var front := run[..|run| - 1];
    var u, v := run[|run| - 2], run[|run| - 1];
    assert front[0] == run[0] && front[|front| - 1] == u;
    if served <= p {
      assert Before(run[0], front[|front| - 1], p);
      served' := NextTurn(run[0], u, v, p, served);
      if served' <= p {
        assert forall i :: 0 <= i < |front| ==> Before(run[0], front[i], p) && run[i] == front[i];
      }
    } else {
      served' := served;
      var i :| 0 <= i < |front| && Alone(front[i], run[0].wrWait[p]);
      assert Alone(run[i], run[0].wrWait[p]);
    }
  }

  /** No overtaking: over any run every queued writer gets the lock in its turn. */
  lemma {:induction false} NoOvertaking(run: seq<Users>, p: nat) returns (served: nat)
    requires RunOf(run) && p < |run[0].wrWait|
    ensures InTurn(run, p, served)
  {
    if |run| == 1 {
      return 0;
    }
    hide InTurn, Moves;
    served := NoOvertaking(run[..|run| - 1], p);
    served := OneMore(run, p, served);
  }

  /** Nobody holds the lock. */
  predicate Free(u: Users)
  {
    u.readers + u.writers == multiset{}
  }

  /** The thread has the only hold. */
  ghost predicate Last(u: Users, holder: nat)
  {
    u.readers + u.writers == multiset{holder}
  }

  /** A lock nobody holds any more goes to the first waiting writer, or else to all waiting readers. */
  ghost function Passed(rdWait: seq<nat>, wrWait: seq<nat>): Users
  {
    if wrWait != [] then Users(multiset{}, multiset{wrWait[0]}, rdWait, wrWait[1..])
    else Users(multiset(rdWait), multiset{}, [], [])
  }

  /** The lock when a hold of `holder` has ended. */
  ghost function Released(u: Users, holder: nat): Users
  {
    if Last(u, holder) then Passed(u.rdWait, u.wrWait) else u.(readers := u.readers - multiset{holder})
  }

  ghost predicate Counted(count: int, readers: multiset<nat>, writers: multiset<nat>)
  {
    && (writers == multiset{} ==> count == |readers|)
    && (writers != multiset{} ==> count == -1 && readers == multiset{} && |writers| == 1)
  }

  lemma FreeCount(u: Users, count: int)
    requires Counted(count, u.readers, u.writers)
    ensures count == 0 <==> Free(u)
  {
  }

  /** What the count tells when a hold of `holder` ends. */
  lemma HoldEnds(u: Users, count: int, holder: nat)
    requires Counted(count, u.readers, u.writers) && (!Free(u) ==> holder in u.readers + u.writers)
    ensures !Free(u) ==> (Last(u, holder) <==> count <= 1)
    ensures count > 1 ==> Counted(count - 1, u.readers - multiset{holder}, u.writers)
  {
    var holds := u.readers + u.writers;
    if holds != multiset{} {
      assert holds == (holds - multiset{holder}) + multiset{holder};
      assert |holds| == |holds - multiset{holder}| + 1;
    }
  }

  lemma Granted(writer: nat, rdWait: seq<nat>)
    ensures Counted(-1, multiset{}, multiset{writer}) && Counted(|rdWait|, multiset(rdWait), multiset{})
  {
  }

  ghost predicate Sleepers(rdWait: seq<nat>, wrWait: seq<nat>)
  {
    NoDup(rdWait) && NoDup(wrWait) && forall x :: x in rdWait ==> x !in wrWait
  }

  lemma FirstWakes(rdWait: seq<nat>, wrWait: seq<nat>)
    requires Sleepers(rdWait, wrWait)
    ensures Sleepers([], wrWait) && (wrWait != [] ==> Sleepers(rdWait, wrWait[1..]))
  {
    if wrWait != [] { Dequeue(wrWait); }
  }

  class RwLock {
    var count: int                // readers inside, or -1 for a writer
    var rdWait: seq<nat>          // rd_wait_queue
    var wrWait: seq<nat>          // wr_wait_queue
    var readers: multiset<nat>    // the holds, which the source leaves to its callers to know
    var writers: multiset<nat>

    /** A writer is alone; the count is the number of read holds; nobody waits for a free lock; readers wait only
        behind a writer, holding or queued; and no thread sleeps twice. */
    ghost predicate Valid()
      reads this
    {
      && Counted(count, readers, writers)
      && (count == 0 ==> rdWait == [] && wrWait == [])
      && (count > 0 && rdWait != [] ==> wrWait != [])
      && Sleepers(rdWait, wrWait)
    }

    /** The lock as its users see it. */
    function View(): Users
      reads this
    {
      Users(readers, writers, rdWait, wrWait)
    }

    predicate Asleep(x: nat)
      reads this
    {
      x in rdWait || x in wrWait
    }

    constructor ()
      ensures Valid() && Free(View()) && forall x :: !Asleep(x)
    {
      count, rdWait, wrWait := 0, [], [];
      readers, writers := multiset{}, multiset{};
    }

    /** `rwlock_wrlock`: the lock if it is free, else the end of the writers' queue. */
    method WrLock(me: nat)
      requires Valid() && !Asleep(me)
      modifies this
      ensures View() == After(old(View()), Wr(me))
      ensures Valid() && readers == old(readers) && rdWait == old(rdWait)
      ensures Free(old(View())) ==> writers == multiset{me} && wrWait == []
      ensures !Free(old(View())) ==> writers == old(writers) && wrWait == old(wrWait) + [me]
    {
      FreeCount(View(), count);
      if count == 0 {
        count := count - 1;
        writers := multiset{me};
        return;
      }
      wrWait := wrWait + [me];
    }

    /** `rwlock_rdlock`: a reader gets in exactly when there is no writer, inside or waiting. */
    method RdLock(me: nat)
      requires Valid() && !Asleep(me)
      modifies this
      ensures View() == After(old(View()), Rd(me))
      ensures Valid() && writers == old(writers) && wrWait == old(wrWait)
      ensures old(writers) == multiset{} && old(wrWait) == [] ==>
        readers == old(readers) + multiset{me} && rdWait == old(rdWait)
      ensures old(writers) != multiset{} || old(wrWait) != [] ==>
        readers == old(readers) && rdWait == old(rdWait) + [me]
    {
      if count >= 0 && wrWait == [] {
        count := count + 1;
        readers := readers + multiset{me};
        return;
      }
      rdWait := rdWait + [me];
    }

    /** `rwlock_trywrlock` */
    method TryWrLock(me: nat) returns (err: Error)
      requires Valid() && !Asleep(me)
      modifies this
      ensures View() == After(old(View()), TryWr(me))
      ensures Valid() && readers == old(readers) && rdWait == old(rdWait) && wrWait == old(wrWait)
      ensures err == (if Free(old(View())) then Ok else EBUSY)
      ensures writers == if err == Ok then multiset{me} else old(writers)
    {
      FreeCount(View(), count);
      if count != 0 {
        return EBUSY;
      }
      count := count - 1;
      writers := multiset{me};
      return Ok;
    }

    /** `rwlock_tryrdlock` */
    method TryRdLock(me: nat) returns (err: Error)
      requires Valid() && !Asleep(me)
      modifies this
      ensures View() == After(old(View()), TryRd(me))
      ensures Valid() && writers == old(writers) && rdWait == old(rdWait) && wrWait == old(wrWait)
      ensures err == (if old(writers) == multiset{} && old(wrWait) == [] then Ok else EBUSY)
      ensures readers == old(readers) + if err == Ok then multiset{me} else multiset{}
    {
      if count >= 0 && wrWait == [] {
        count := count + 1;
        readers := readers + multiset{me};
        return Ok;
      }
      return EBUSY;
    }

    /** `rwlock_unlock`, by any thread: one hold of `holder` ends, EPERM when there is none. With the last hold the lock
        goes to the first waiting writer, or else to all waiting readers. */
    method Unlock(holder: nat) returns (err: Error)
      requires Valid() && (!Free(View()) ==> holder in readers + writers)
      modifies this
      ensures Valid()
      ensures if Free(old(View())) then err == EPERM && View() == old(View())
              else err == Ok && View() == Released(old(View()), holder)
      ensures View() == After(old(View()), Call.Unlock(holder))
    {
      hide Counted, Sleepers, Free, Last, Passed;
      FreeCount(View(), count);
      if count == 0 {
        return EPERM;
      }
      HoldEnds(View(), count, holder);
      if count > 1 {
        count := count - 1;
        readers := readers - multiset{holder};
        return Ok;
      }
      WakeUp();
      return Ok;
    }

    /** The end of `rwlock_unlock`, by the last reader or a writer. */
    method WakeUp()
      requires Sleepers(rdWait, wrWait)
      modifies this
      ensures Valid() && View() == Passed(old(rdWait), old(wrWait))
    {
      FirstWakes(rdWait, wrWait);
      hide Counted, Sleepers;
      count := 0;
      readers, writers := multiset{}, multiset{};
      if wrWait != [] {
        var thread := wrWait[0];
        wrWait := wrWait[1..];
        writers := multiset{thread};
        count := count - 1;
        Granted(thread, []);
        return;
      }
      Granted(0, rdWait);
      count := count + |rdWait|;
      readers := multiset(rdWait);
      rdWait := [];
    }

    lemma NobodyWaits()
      requires Valid()
      ensures Free(View()) ==> wrWait == []
    {
      FreeCount(View(), count);
    }

    /** One call, by a thread that is awake. */
    method Step(c: Call)
      requires Valid() && Legal(View(), c)
      modifies this
      ensures Valid() && Moves(old(View()), View()) && View() == After(old(View()), c)
    {
      NobodyWaits();
      AfterMoves(View(), c);
      hide After, Valid, Free, Moves, Released;
      var err: Error;
      match c
      case Wr(me) => WrLock(me);
      case Rd(me) => RdLock(me);
      case TryWr(me) => err := TryWrLock(me);
      case TryRd(me) => err := TryRdLock(me);
      case Unlock(holder) => err := this.Unlock(holder);
    }

    /** Any calls by any threads, none made by a thread that sleeps; `history` are the states passed
        through. However the calls come, every writer queued at first gets the lock in its turn. */
    method Run(calls: seq<Call>) returns (history: seq<Users>)
      requires Valid()
      modifies this
      ensures Valid() && RunOf(history) && history[0] == old(View()) && history[|history| - 1] == View()
      ensures Answers(calls, history)
      ensures forall p: nat :: p < |old(wrWait)| ==> NotOvertaken(history, p)
    {
      history := [View()];
      var i := 0;
      while i < |calls|
        invariant Valid() && RunOf(history) && history[0] == old(View()) && history[|history| - 1] == View()
        invariant i <= |calls| && Answers(calls[..i], history)
      {
        hide *;
        if Legal(View(), calls[i]) {
          Step(calls[i]);
        }
        OneAnswer(calls, i, history, View());
        history := history + [View()];
        i := i + 1;
      }
      assert calls[..i] == calls;
      hide Answers, RunOf, Moves, Legal, After, Valid;
      forall p: nat | p < |old(wrWait)|
        ensures NotOvertaken(history, p)
      {
        var served := NoOvertaking(history, p);
      }
    }
  }
}
