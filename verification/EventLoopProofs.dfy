/** What a wait returns, on every broadcast and under every clock. */
module EventLoopProofs {
  import opened Wrappers
  import opened EventLoop

  ghost predicate Accepted<V, R>(w: World<V>, accept: V -> Option<R>, i: nat) {
    i < |w.stream| && accept(w.stream[i].event).Some?
  }

  lemma LaterPublishesMore<V>(w: World<V>, now: nat, later: nat)
    requires w.Valid() && now <= later
    ensures w.PublishedBy(now) <= w.PublishedBy(later)
  {
    w.PublishedInOrder(|w.stream|, now);
    w.PublishedInOrder(|w.stream|, later);
    if w.PublishedBy(now) > 0 {
      assert w.stream[w.PublishedBy(now) - 1].time <= now;
    }
  }

  lemma LostStaysLost<V>(w: World<V>, i: nat, now: nat, later: nat)
    requires w.Valid() && now <= later && w.Lost(i, now)
    ensures w.Lost(i, later)
  {
    LaterPublishesMore(w, now, later);
  }

  ghost predicate ClosedBy<V>(w: World<V>, now: nat) {
    w.closedAt.Some? && w.closedAt.value <= now
  }

  /** What a turn skips is lost, and what it delivers is not; after a lag the caller
      stands at the oldest event the buffer still holds. */
  lemma TurnOutcome<V>(w: World<V>, deadline: nat, s: State)
    requires w.Valid() && s.next <= |w.stream|
    ensures var (d, after) := Turn(w, deadline, s);
            && s.now <= after.now
            && match d
               case None => after.now >= deadline || (ClosedBy(w, after.now) && after.next == |w.stream|)
               case Some(Lagged(_)) =>
                 && (forall i :: s.next <= i < after.next ==> w.Lost(i, after.now))
                 && !w.Lost(after.next, after.now) && after.next + w.capacity == w.PublishedBy(after.now)
               case Some(Event(i)) => w.stream[i].time <= after.now && !w.Lost(i, after.now)
  {
    w.PublishedInOrder(|w.stream|, Turn(w, deadline, s).1.now);
  }

  /** Every event the caller has passed was refused or lost, save the one taken. */
  ghost predicate Passed<V, R>(w: World<V>, accept: V -> Option<R>, from: nat, to: nat, now: nat)
    requires w.Valid()
  {
    forall i :: from <= i < to && Accepted(w, accept, i) ==> w.Lost(i, now)
  }

  /** The event taken is the first one, from where the caller began, that it
      accepts and that was not overwritten. When none is taken, everything read
      was refused or overwritten, and the wait went on to the deadline, or to
      the closing of a broadcast that was read to its end. */
  lemma {:induction false} TakesTheFirstAccepted<V, R>(w: World<V>, accept: V -> Option<R>, deadline: nat, s: State)
    requires w.Valid() && s.next <= |w.stream|
    ensures var o := Await(w, accept, deadline, s);
            && s.now <= o.end.now && s.next <= o.end.next
            && match o.taken
               case Some(i) =>
                 && s.next <= i && Accepted(w, accept, i)
                 && w.stream[i].time <= o.end.now && !w.Lost(i, o.end.now)
                 && Passed(w, accept, s.next, i, o.end.now)
               case None =>
                 && Passed(w, accept, s.next, o.end.next, o.end.now)
                 && (o.end.now >= deadline || (ClosedBy(w, o.end.now) && o.end.next == |w.stream|))
    decreases |w.stream| - s.next
  {
    TurnOutcome(w, deadline, s);
    var (d, after) := Turn(w, deadline, s);
    if d.Some? && !(d.value.Event? && accept(w.stream[d.value.index].event).Some?) {
      TakesTheFirstAccepted(w, accept, deadline, after);
      var end := Await(w, accept, deadline, after).end;
      forall i | s.next <= i < after.next && Accepted(w, accept, i)
        ensures w.Lost(i, end.now)
      {
        LostStaysLost(w, i, after.now, end.now);
      }
    }
  }

  // ---------------------------------------------------------------------------
  // When an event is reached
  // ---------------------------------------------------------------------------

  /** The first clock reading of a turn, which the deadline is held against. */
  function Reading<V>(w: World<V>, s: State): nat {
    s.now + Delay(w.delays, s.ticks)
  }

  /** When a turn that waits for the next event polls the channel. */
  function PollTime<V>(w: World<V>, s: State): nat
    requires s.next < |w.stream|
  {
    var waiting := Reading(w, s) + Delay(w.delays, s.ticks + 1) + Delay(w.delays, s.ticks + 2);
    var published := w.stream[s.next].time;
    (if waiting < published then published else waiting) + Delay(w.delays, s.ticks + 3)
  }

  /** Where that turn leaves the caller. */
  function Onward<V>(w: World<V>, s: State): (after: State)
    requires w.Valid() && s.next < |w.stream|
    ensures s.next < after.next <= |w.stream|
  {
    w.PublishedInOrder(|w.stream|, PollTime(w, s));
    State(Advance(s.next, w.Poll(s.next, PollTime(w, s))), PollTime(w, s), s.ticks + 4)
  }

  /** The state in which a caller comes to event `i`, or to the end of the
      broadcast, if no deadline stops it; none, if it skips the event. It depends
      on publication times, delays and capacity alone: not on the deadline, nor
      on what events say. */
  function StateAt<V>(w: World<V>, s: State, i: nat): (at: Option<State>)
    requires w.Valid() && s.next <= i <= |w.stream|
    ensures i == |w.stream| ==> at.Some?
    ensures at.Some? ==> at.value.next == i
    decreases i - s.next
  {
    if s.next == i then Some(s) else
      var after := Onward(w, s);
      if after.next <= i then StateAt(w, after, i) else None
  }

  lemma {:induction false} StateAtIsLater<V>(w: World<V>, s: State, i: nat)
    requires w.Valid() && s.next < i <= |w.stream|
    ensures StateAt(w, s, i).Some? ==> StateAt(w, s, i).value.now >= PollTime(w, s)
    decreases i - s.next
  {
    var after := Onward(w, s);
    if after.next < i {
      StateAtIsLater(w, after, i);
    }
  }

  /** When a turn polls the channel, given the deadline its timer is set to. */
  function PollBy<V>(w: World<V>, deadline: nat, s: State): nat {
    var started := Reading(w, s) + Delay(w.delays, s.ticks + 1);
    var remaining := if started < deadline then deadline - started else 0;
    var waiting := started + Delay(w.delays, s.ticks + 2);
    w.WakeTime(s.next, waiting, waiting + remaining) + Delay(w.delays, s.ticks + 3)
  }

  /** A caller comes to event `i`, begins its turn before the deadline, and polls
      while the event is in the buffer. */
  ghost predicate Reads<V>(w: World<V>, deadline: nat, s: State, i: nat)
    requires w.Valid() && s.next <= i < |w.stream|
  {
    match StateAt(w, s, i)
    case None => false
    case Some(t) =>
      && Reading(w, t) < deadline
      && w.stream[i].time <= PollBy(w, deadline, t) && !w.Lost(i, PollBy(w, deadline, t))
  }

  lemma TurnPollsBy<V>(w: World<V>, deadline: nat, s: State)
    requires w.Valid() && s.next < |w.stream| && Reading(w, s) < deadline
    ensures var (d, after) := Turn(w, deadline, s);
            && after.now == PollBy(w, deadline, s)
            && (d == Some(Event(s.next)) <==> Reads(w, deadline, s, s.next))
            && (w.stream[s.next].time >= deadline ==> after.now >= deadline)
  {
    w.PublishedInOrder(|w.stream|, PollBy(w, deadline, s));
  }

  /** Before its deadline, a turn towards an event published before it goes on as
      if there were none. */
  lemma TurnIsOnward<V>(w: World<V>, deadline: nat, s: State)
    requires w.Valid() && s.next < |w.stream| && Reading(w, s) < deadline && w.stream[s.next].time < deadline
    ensures PollBy(w, deadline, s) == PollTime(w, s)
    ensures Turn(w, deadline, s) == (w.Poll(s.next, PollTime(w, s)), Onward(w, s))
    ensures Turn(w, deadline, s).0.Some?
  {
    w.PublishedInOrder(|w.stream|, PollTime(w, s));
  }

  lemma TooLateTakesNothing<V, R>(w: World<V>, accept: V -> Option<R>, deadline: nat, s: State)
    requires w.Valid() && s.next <= |w.stream| && s.now >= deadline
    ensures Await(w, accept, deadline, s).taken == None
  {
  }

  /** The first accepted event that the caller reads is the one it takes, for
      every broadcast, clock and filter: nothing else is, and it always is. */
  lemma {:induction false} TakenExactlyWhenRead<V, R>(w: World<V>, accept: V -> Option<R>, deadline: nat, s: State,
                                                      i: nat)
    requires w.Valid() && s.next <= i && Accepted(w, accept, i)
    requires forall j :: s.next <= j < i && Accepted(w, accept, j) ==> !Reads(w, deadline, s, j)
    ensures Await(w, accept, deadline, s).taken == Some(i) <==> Reads(w, deadline, s, i)
    decreases i - s.next
  {
    if s.next < i {
      StateAtIsLater(w, s, i);
    }
    if Reading(w, s) < deadline {
      TurnPollsBy(w, deadline, s);
      var (d, after) := Turn(w, deadline, s);
      if s.next < i && w.stream[s.next].time < deadline {
        TurnIsOnward(w, deadline, s);
        if after.next <= i {
          forall j | after.next <= j < i && Accepted(w, accept, j)
            ensures !Reads(w, deadline, after, j)
          {
            assert StateAt(w, after, j) == StateAt(w, s, j);
          }
          TakenExactlyWhenRead(w, accept, deadline, after, i);
        } else {
          TakesTheFirstAccepted(w, accept, deadline, after);
        }
      } else if s.next < i {
        TooLateTakesNothing(w, accept, deadline, after);
      } else if d.Some? {
        TakesTheFirstAccepted(w, accept, deadline, after);
      }
    }
  }

  lemma {:induction false} NotTakenNotRead<V, R>(w: World<V>, accept: V -> Option<R>, deadline: nat, s: State, i: nat)
    requires w.Valid() && s.next <= i && Accepted(w, accept, i)
    requires forall j :: s.next <= j <= i ==> Await(w, accept, deadline, s).taken != Some(j)
    ensures !Reads(w, deadline, s, i)
    decreases i
  {
    forall j | s.next <= j < i && Accepted(w, accept, j)
      ensures !Reads(w, deadline, s, j)
    {
      NotTakenNotRead(w, accept, deadline, s, j);
    }
    TakenExactlyWhenRead(w, accept, deadline, s, i);
  }

  /** The whole outcome: the event taken is the first accepted one that is read,
      and none is taken exactly when none is read. */
  lemma TakesTheFirstRead<V, R>(w: World<V>, accept: V -> Option<R>, deadline: nat, s: State)
    requires w.Valid() && s.next <= |w.stream|
    ensures match Await(w, accept, deadline, s).taken
            case Some(i) =>
              && s.next <= i && Accepted(w, accept, i) && Reads(w, deadline, s, i)
              && forall j :: s.next <= j < i && Accepted(w, accept, j) ==> !Reads(w, deadline, s, j)
            case None =>
              forall j :: s.next <= j && Accepted(w, accept, j) ==> !Reads(w, deadline, s, j)
  {
    TakesTheFirstAccepted(w, accept, deadline, s);
    var taken := Await(w, accept, deadline, s).taken;
    forall j | s.next <= j && Accepted(w, accept, j) && (taken.Some? ==> j < taken.value)
      ensures !Reads(w, deadline, s, j)
    {
      NotTakenNotRead(w, accept, deadline, s, j);
    }
    if taken.Some? {
      TakenExactlyWhenRead(w, accept, deadline, s, taken.value);
    }
  }

  /** The clock reading at the start of the turn that reads event `i`; none, if
      the event is overwritten first. */
  function TurnsTo<V>(w: World<V>, s: State, i: nat): Option<nat>
    requires w.Valid() && s.next <= i < |w.stream|
  {
    match StateAt(w, s, i)
    case None => None
    case Some(t) => if w.Poll(i, PollTime(w, t)) == Some(Event(i)) then Some(Reading(w, t)) else None
  }

  /** An event published before the deadline is read exactly when its turn begins
      before the deadline. */
  lemma ReadExactlyWhenReachedInTime<V>(w: World<V>, deadline: nat, s: State, i: nat)
    requires w.Valid() && s.next <= i < |w.stream| && w.stream[i].time < deadline
    ensures Reads(w, deadline, s, i) <==> TurnsTo(w, s, i).Some? && TurnsTo(w, s, i).value < deadline
  {
    var at := StateAt(w, s, i);
    if at.Some? && Reading(w, at.value) < deadline {
      TurnIsOnward(w, deadline, at.value);
      TurnPollsBy(w, deadline, at.value);
    }
  }

  /** So for events published before the deadline the condition does not involve
      the timer: the first that is accepted and not overwritten is taken exactly
      when the turn that reads it begins before the deadline. */
  lemma TakenExactlyWhenReachedInTime<V, R>(w: World<V>, accept: V -> Option<R>, deadline: nat, s: State, i: nat)
    requires w.Valid() && s.next <= i && Accepted(w, accept, i) && w.stream[i].time < deadline
    requires forall j :: s.next <= j < i && Accepted(w, accept, j) ==> TurnsTo(w, s, j) == None
    ensures Await(w, accept, deadline, s).taken == Some(i) <==>
              TurnsTo(w, s, i).Some? && TurnsTo(w, s, i).value < deadline
  {
    forall j | s.next <= j <= i && Accepted(w, accept, j)
      ensures Reads(w, deadline, s, j) <==> TurnsTo(w, s, j).Some? && TurnsTo(w, s, j).value < deadline
    {
      ReadExactlyWhenReachedInTime(w, deadline, s, j);
    }
    TakenExactlyWhenRead(w, accept, deadline, s, i);
  }

  /** Nothing is overwritten while the rest of the broadcast fits the buffer. */
  lemma {:induction false} AllTurnedTo<V>(w: World<V>, s: State, i: nat)
    requires w.Valid() && s.next <= i < |w.stream| <= s.next + w.capacity
    ensures TurnsTo(w, s, i).Some?
    decreases i - s.next
  {
    w.PublishedInOrder(|w.stream|, PollTime(w, s));
    if s.next < i {
      AllTurnedTo(w, Onward(w, s), i);
    }
  }

  function OnlyTrue(e: bool): Option<bool> {
    if e then Some(e) else None
  }

  const LATE_READER := World([Published(1, false), Published(2, true)], None, 8, [0, 0, 0, 0, 100])

  const LATE_REPLY := World([Published(20, true)], None, 8, [0, 0, 0, 15])

  /** And a caller woken late by its timer takes a reply published after the
      deadline, since the channel is polled before the timer: here the deadline
      is 10, the reply comes at 20 and is taken at 25. */
  lemma LateReplyIsTaken()
    ensures LATE_REPLY.Valid() && Accepted(LATE_REPLY, OnlyTrue, 0) && LATE_REPLY.stream[0].time == 20
    ensures Await(LATE_REPLY, OnlyTrue, 10, State(0, 0, 0)) == Outcome(Some(0), State(1, 25, 4))
  {
    LATE_REPLY.PublishedInOrder(1, 25);
  }

  lemma LateReaderTurns()
    ensures LATE_READER.Valid()
    ensures Turn(LATE_READER, 10, State(0, 0, 0)) == (Some(Event(0)), State(1, 1, 4))
    ensures Turn(LATE_READER, 10, State(1, 1, 4)) == (None, State(1, 101, 5))
  {
    LATE_READER.PublishedInOrder(2, 1);
  }

  /** A caller scheduled late misses a reply that lies in its buffer, published
      well before the deadline: the loop looks at the clock, not at the channel,
      before it goes on. Here the reply comes at 2 and the deadline is 10, but
      the turn that would read it begins only at 101. */
  lemma LateReaderMissesABufferedReply()
    ensures LATE_READER.Valid() && |LATE_READER.stream| <= LATE_READER.capacity
    ensures Accepted(LATE_READER, OnlyTrue, 1) && LATE_READER.stream[1].time < 10
    ensures TurnsTo(LATE_READER, State(0, 0, 0), 1).Some? && TurnsTo(LATE_READER, State(0, 0, 0), 1).value >= 10
    ensures Await(LATE_READER, OnlyTrue, 10, State(0, 0, 0)) == Outcome(None, State(1, 101, 5))
  {
    LateReaderTurns();
    assert Await(LATE_READER, OnlyTrue, 10, State(1, 1, 4)) == Outcome(None, State(1, 101, 5));
    AllTurnedTo(LATE_READER, State(0, 0, 0), 1);
    TakenExactlyWhenReachedInTime(LATE_READER, OnlyTrue, 10, State(0, 0, 0), 1);
  }

  // ---------------------------------------------------------------------------
  // Prompt callers
  // ---------------------------------------------------------------------------

  /** The caller is scheduled as soon as it can run. */
  ghost predicate Prompt<V>(w: World<V>) {
    forall k :: 0 <= k < |w.delays| ==> w.delays[k] == 0
  }

  /** Time has not run past the deadline with an earlier event unread. */
  ghost predicate OnTime<V>(w: World<V>, deadline: nat, s: State) {
    s.now < deadline || (s.now == deadline && forall i :: s.next <= i < |w.stream| ==> w.stream[i].time >= deadline)
  }

  lemma PromptTurn<V>(w: World<V>, deadline: nat, s: State)
    requires w.Valid() && s.next <= |w.stream| && Prompt(w) && OnTime(w, deadline, s)
    ensures var (d, after) := Turn(w, deadline, s);
            && after.now <= deadline
            && (d.Some? ==> OnTime(w, deadline, after))
            && (d.None? ==> forall i :: after.next <= i < |w.stream| ==> w.stream[i].time >= deadline)
  {
    w.PublishedInOrder(|w.stream|, Turn(w, deadline, s).1.now);
  }

  /** A prompt caller reads every event published before the deadline. */
  lemma {:induction false} PromptCallerReadsOn<V, R>(w: World<V>, accept: V -> Option<R>, deadline: nat, s: State)
    requires w.Valid() && s.next <= |w.stream| && Prompt(w) && OnTime(w, deadline, s)
    ensures var o := Await(w, accept, deadline, s);
            && o.end.now <= deadline
            && (o.taken == None ==>
                  forall i :: o.end.next <= i < |w.stream| ==> w.stream[i].time >= deadline)
    decreases |w.stream| - s.next
  {
    PromptTurn(w, deadline, s);
    var (d, after) := Turn(w, deadline, s);
    if d.Some? && !(d.value.Event? && accept(w.stream[d.value.index].event).Some?) {
      PromptCallerReadsOn(w, accept, deadline, after);
    }
  }

  /** No burst overruns the buffer: of any `capacity + 1` events in a row, the
      last comes later than the first; and the caller's backlog fits too. */
  ghost predicate BurstsFit<V>(w: World<V>, s: State)
    requires w.Valid()
  {
    && (forall i :: 0 <= i < |w.stream| - w.capacity ==> w.stream[i].time < w.stream[i + w.capacity].time)
    && w.PublishedBy(s.now) <= s.next + w.capacity
  }

  lemma PromptTurnSkipsNothing<V>(w: World<V>, deadline: nat, s: State)
    requires w.Valid() && s.next <= |w.stream| && Prompt(w) && BurstsFit(w, s) && s.now < deadline
    ensures var (d, after) := Turn(w, deadline, s);
            && (d == None || d == Some(Event(s.next)))
            && (d.Some? ==> BurstsFit(w, after) && w.stream[s.next].time <= after.now <= deadline
                            && (w.stream[s.next].time < deadline ==> after.now < deadline))
            && (d == None ==> forall i :: s.next <= i < |w.stream| ==> w.stream[i].time > deadline)
  {
    var now := Turn(w, deadline, s).1.now;
    w.PublishedInOrder(|w.stream|, now);
    w.PublishedInOrder(|w.stream|, s.now);
    assert s.next + w.capacity < |w.stream| ==> w.stream[s.next].time < w.stream[s.next + w.capacity].time;
  }

  /** So a prompt caller whose buffer takes every burst, however long the
      broadcast, gets the first event it accepts exactly when it is published
      before the deadline, or at it with nothing left to read before it. */
  lemma {:induction false} PromptCallerGetsTheReply<V, R>(w: World<V>, accept: V -> Option<R>, deadline: nat,
                                                          s: State, i: nat)
    requires w.Valid() && s.next <= i && Prompt(w) && BurstsFit(w, s)
    requires Accepted(w, accept, i) && forall j :: s.next <= j < i ==> !Accepted(w, accept, j)
    ensures Await(w, accept, deadline, s).taken == Some(i) <==>
              && s.now < deadline && w.stream[i].time <= deadline
              && forall j :: s.next <= j < i ==> w.stream[j].time < deadline
    decreases i - s.next
  {
    if s.now < deadline {
      PromptTurnSkipsNothing(w, deadline, s);
      var (d, after) := Turn(w, deadline, s);
      if d.Some? && s.next < i {
        assert !Accepted(w, accept, s.next);
        PromptCallerGetsTheReply(w, accept, deadline, after, i);
      }
    }
  }

  // ---------------------------------------------------------------------------
  // Closed broadcasts
  // ---------------------------------------------------------------------------

  lemma {:induction false} ClosingEndsTheWait<V, R>(w: World<V>, accept: V -> Option<R>, deadline: nat, s: State)
    requires w.Valid() && s.next <= |w.stream| && Prompt(w)
    requires s.now < deadline && w.closedAt.Some? && w.closedAt.value < deadline
    ensures Await(w, accept, deadline, s).end.now < deadline
    decreases |w.stream| - s.next
  {
    var (d, after) := Turn(w, deadline, s);
    if d.Some? && !(d.value.Event? && accept(w.stream[d.value.index].event).Some?) {
      ClosingEndsTheWait(w, accept, deadline, after);
    }
  }

  /** When a caller that has read everything polls the channel on its closing. */
  function ClosingPoll<V>(w: World<V>, s: State, closed: nat): nat {
    var waiting := Reading(w, s) + Delay(w.delays, s.ticks + 1) + Delay(w.delays, s.ticks + 2);
    (if waiting < closed then closed else waiting) + Delay(w.delays, s.ticks + 3)
  }

  lemma TurnAtTheEnd<V>(w: World<V>, deadline: nat, s: State)
    requires w.Valid() && s.next == |w.stream|
    ensures Turn(w, deadline, s).0 == None
    ensures Turn(w, deadline, s).1.now < deadline <==>
              w.closedAt.Some? && ClosingPoll(w, s, w.closedAt.value) < deadline
  {
  }

  /** A caller that gets nothing gives up before its deadline exactly when the
      broadcast closes and, having read all of it, the caller would learn of the
      closing before the deadline: for every broadcast and clock. */
  lemma {:induction false} GivesUpEarlyExactlyWhenClosed<V, R>(w: World<V>, accept: V -> Option<R>, deadline: nat,
                                                               s: State)
    requires w.Valid() && s.next <= |w.stream| && Await(w, accept, deadline, s).taken == None
    ensures Await(w, accept, deadline, s).end.now < deadline <==>
              && w.closedAt.Some?
              && ClosingPoll(w, StateAt(w, s, |w.stream|).value, w.closedAt.value) < deadline
    decreases |w.stream| - s.next
  {
    if s.next == |w.stream| {
      TurnAtTheEnd(w, deadline, s);
    } else {
      StateAtIsLater(w, s, |w.stream|);
      if Reading(w, s) < deadline {
        TurnPollsBy(w, deadline, s);
        var (d, after) := Turn(w, deadline, s);
        if w.stream[s.next].time < deadline {
          TurnIsOnward(w, deadline, s);
          GivesUpEarlyExactlyWhenClosed(w, accept, deadline, after);
        } else if d.Some? {
          TakesTheFirstAccepted(w, accept, deadline, after);
        }
      }
    }
  }

  /** For a prompt caller: exactly when the broadcast closes before the deadline. */
  lemma PromptCallerGivesUpWhenClosed<V, R>(w: World<V>, accept: V -> Option<R>, deadline: nat, s: State)
    requires w.Valid() && s.next <= |w.stream| && Prompt(w) && s.now < deadline
    requires Await(w, accept, deadline, s).taken == None
    ensures Await(w, accept, deadline, s).end.now < deadline <==>
              w.closedAt.Some? && w.closedAt.value < deadline
  {
    TakesTheFirstAccepted(w, accept, deadline, s);
    if w.closedAt.Some? && w.closedAt.value < deadline {
      ClosingEndsTheWait(w, accept, deadline, s);
    }
  }

  const CLOSED_BROADCAST := World([Published(1, false)], Some(3), 8, [])

  /** Here the broadcast closes at 3, and the wait ends there, not at 10. */
  lemma ClosedBroadcastGivesUpEarly()
    ensures CLOSED_BROADCAST.Valid()
    ensures Await(CLOSED_BROADCAST, OnlyTrue, 10, State(0, 0, 0)) == Outcome(None, State(1, 3, 8))
  {
    CLOSED_BROADCAST.PublishedInOrder(1, 1);
    assert Turn(CLOSED_BROADCAST, 10, State(0, 0, 0)) == (Some(Event(0)), State(1, 1, 4));
    CLOSED_BROADCAST.PublishedInOrder(1, 3);
    assert Turn(CLOSED_BROADCAST, 10, State(1, 1, 4)) == (None, State(1, 3, 8));
  }

  // ---------------------------------------------------------------------------
  // Other callers on the same broadcast
  // ---------------------------------------------------------------------------

  /** The same broadcast but for the events' contents. */
  ghost predicate SameTimes<V>(w: World<V>, v: World<V>) {
    && v == w.(stream := v.stream) && |v.stream| == |w.stream|
    && forall i :: 0 <= i < |w.stream| ==> v.stream[i].time == w.stream[i].time
  }

  lemma {:induction false} SameTimesSameCount<V>(w: World<V>, v: World<V>, k: nat, now: nat)
    requires w.Valid() && v.Valid() && SameTimes(w, v) && k <= |w.stream|
    ensures v.CountUpTo(k, now) == w.CountUpTo(k, now)
  {
    if k > 0 {
      SameTimesSameCount(w, v, k - 1, now);
    }
  }

  lemma SameTimesSameTurn<V>(w: World<V>, v: World<V>, deadline: nat, s: State)
    requires w.Valid() && v.Valid() && SameTimes(w, v) && s.next <= |w.stream|
    ensures Turn(v, deadline, s) == Turn(w, deadline, s)
  {
    forall now: nat
      ensures v.PublishedBy(now) == w.PublishedBy(now)
    {
      SameTimesSameCount(w, v, |w.stream|, now);
    }
  }

  /** A wait depends on which events it accepts and on nothing else in them. */
  lemma {:induction false} RefusedEventsAreAlike<V, R>(w: World<V>, v: World<V>, accept: V -> Option<R>,
                                                       deadline: nat, s: State)
    requires w.Valid() && v.Valid() && SameTimes(w, v) && s.next <= |w.stream|
    requires forall i :: 0 <= i < |w.stream| ==> (Accepted(w, accept, i) <==> Accepted(v, accept, i))
    ensures Await(v, accept, deadline, s) == Await(w, accept, deadline, s)
    decreases |w.stream| - s.next
  {
    SameTimesSameTurn(w, v, deadline, s);
    var (d, after) := Turn(w, deadline, s);
    if d.Some? {
      if d.value.Event? {
        assert Accepted(w, accept, d.value.index) <==> Accepted(v, accept, d.value.index);
      }
      RefusedEventsAreAlike(w, v, accept, deadline, after);
    }
  }
}
