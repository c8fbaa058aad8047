/** Whose reply a caller gets. */
module ChunkProtocolProofs {
  import opened Wrappers
  import ByteStrings
  import opened ChunkMessages
  import ChunkMessageProofs
  import opened EventLoop
  import opened EventLoopProofs
  import opened ChunkProtocol

  /** The event is a well-formed chunk message from `target` with request id `id`. */
  ghost predicate Answers(e: P2PEvent, target: PeerId, id: ByteStrings.uint64) {
    && e.Message? && e.topic == "autonomi.ant.chunk.v1" && e.source == Some(target)
    && Decode(e.data).Success? && Decode(e.data).value.requestId == id
  }

  /** A caller accepts exactly what answers it and satisfies its handler. */
  lemma AcceptedExactlyWhenAnswering<T, E>(q: Request<T, E>, e: P2PEvent)
    ensures q.Accept(e).Some? <==>
              Answers(e, q.target, q.id) && q.handler(Decode(e.data).value.body).Some?
    ensures q.Accept(e).Some? ==>
              && q.handler(Decode(e.data).value.body) == Some(q.Accept(e).value.result)
              && q.Accept(e).value.sourcePeer == q.target
              && q.Accept(e).value.transportSource == e.transportSource
  {
  }

  /** A peer's reply reaches the handler as the message it encoded. */
  lemma EncodedReplyIsAccepted<T, E>(q: Request<T, E>, body: ChunkMessageBody, transport: Option<MultiAddr>)
    requires |Encode(ChunkMessage(q.id, body))| <= MAX_WIRE_MESSAGE_SIZE && q.handler(body).Some?
    ensures q.Accept(Message(CHUNK_PROTOCOL_ID, Some(q.target), transport, Encode(ChunkMessage(q.id, body)))) ==
            Some(ChunkProtocolResponse(q.handler(body).value, q.target, transport))
  {
    var m := ChunkMessage(q.id, body);
    assert Encode(m) + [] == Encode(m);
    ChunkMessageProofs.DecodeOfEncode(m, []);
  }

  /** The first reading of the clock after sending. */
  function ReadingAfterSending(w: World<P2PEvent>, now: nat, ticks: nat, sending: Sending): nat {
    now + sending.took + Delay(w.delays, ticks)
  }

  /** The deadline of a call that was sent: the timeout from the first reading after
      sending, or, where the clock cannot represent that, the next reading. */
  function CallDeadline(w: World<P2PEvent>, timeout: nat, latest: nat, now: nat, ticks: nat, sending: Sending): nat {
    var read := ReadingAfterSending(w, now, ticks, sending);
    if read + timeout <= latest then read + timeout else read + Delay(w.delays, ticks + 1)
  }

  /** Where it begins to wait: at the events published since it subscribed, which
      was before sending, and at its last reading of the clock. */
  function CallStart(w: World<P2PEvent>, timeout: nat, latest: nat, now: nat, ticks: nat, sending: Sending): State
    requires w.Valid()
  {
    var read := ReadingAfterSending(w, now, ticks, sending);
    if read + timeout <= latest then State(w.PublishedBy(now), read, ticks + 1)
    else State(w.PublishedBy(now), read + Delay(w.delays, ticks + 1), ticks + 2)
  }

  /** The deadline and the start of the wait, from the clock readings. */
  lemma CallIsAWait<R>(w: World<P2PEvent>, accept: P2PEvent -> Option<R>, timeout: nat, latest: nat,
                       now: nat, ticks: nat, sending: Sending)
    requires w.Valid() && sending.Sent?
    ensures Exchange(w, accept, timeout, latest, now, ticks, sending) ==
            Await(w, accept, CallDeadline(w, timeout, latest, now, ticks, sending),
                  CallStart(w, timeout, latest, now, ticks, sending))
  {
  }

  /** A call's search begins at its subscription, before sending. Where the call
      ends, it has taken the first event from there on that it accepts and that
      was not overwritten by then; or everything it read was refused or
      overwritten, and it has reached its deadline, or the end of a broadcast
      that closed. */
  lemma ExchangeOutcome<T, E>(w: World<P2PEvent>, q: Request<T, E>, timeout: nat, latest: nat,
                              now: nat, ticks: nat, sending: Sending)
    requires w.Valid() && sending.Sent?
    ensures var (o, start) := (Exchange(w, q.Accept, timeout, latest, now, ticks, sending), w.PublishedBy(now));
            && o.end.now >= now + sending.took && o.end.next >= start
            && match o.taken
               case Some(i) =>
                 && start <= i && w.stream[i].time > now && Answers(w.stream[i].event, q.target, q.id)
                 && w.stream[i].time <= o.end.now && !w.Lost(i, o.end.now)
                 && Passed(w, q.Accept, start, i, o.end.now)
               case None =>
                 && Passed(w, q.Accept, start, o.end.next, o.end.now)
                 && (o.end.now >= CallDeadline(w, timeout, latest, now, ticks, sending)
                     || (ClosedBy(w, o.end.now) && o.end.next == |w.stream|))
  {
    var deadline, s := CallDeadline(w, timeout, latest, now, ticks, sending),
                       CallStart(w, timeout, latest, now, ticks, sending);
    CallIsAWait(w, q.Accept, timeout, latest, now, ticks, sending);
    TakesTheFirstAccepted(w, q.Accept, deadline, s);
    var o := Await(w, q.Accept, deadline, s);
    w.PublishedInOrder(|w.stream|, now);
    if o.taken.Some? {
      AcceptedExactlyWhenAnswering(q, w.stream[o.taken.value].event);
    }
  }

  /** A call whose message was not sent waits for nothing. */
  lemma UnsentIsUnanswered<T, E>(w: World<P2PEvent>, q: Request<T, E>, timeout: nat, latest: nat,
                                 now: nat, ticks: nat, sending: Sending)
    requires w.Valid() && sending.NotSent?
    ensures Exchange(w, q.Accept, timeout, latest, now, ticks, sending) ==
            Outcome(None, State(w.PublishedBy(now), now + sending.took, ticks))
  {
  }

  /** Exactly when an acceptable reply answers the call, be it published before
      the deadline or after: when it is the first the caller reads. */
  lemma AnsweredExactlyWhenRead<R>(w: World<P2PEvent>, accept: P2PEvent -> Option<R>, timeout: nat, latest: nat,
                                   now: nat, ticks: nat, sending: Sending, i: nat)
    requires w.Valid() && sending.Sent? && w.PublishedBy(now) <= i && Accepted(w, accept, i)
    requires var deadline, s := CallDeadline(w, timeout, latest, now, ticks, sending),
                                CallStart(w, timeout, latest, now, ticks, sending);
             forall j :: s.next <= j < i && Accepted(w, accept, j) ==> !Reads(w, deadline, s, j)
    ensures var deadline, s := CallDeadline(w, timeout, latest, now, ticks, sending),
                               CallStart(w, timeout, latest, now, ticks, sending);
            Exchange(w, accept, timeout, latest, now, ticks, sending).taken == Some(i) <==> Reads(w, deadline, s, i)
  {
    var deadline, s := CallDeadline(w, timeout, latest, now, ticks, sending),
                       CallStart(w, timeout, latest, now, ticks, sending);
    CallIsAWait(w, accept, timeout, latest, now, ticks, sending);
    TakenExactlyWhenRead(w, accept, deadline, s, i);
  }

  /** A call that gets nothing ends before its deadline exactly when it would
      learn before the deadline that the broadcast closed. */
  lemma CallGivesUpEarlyExactlyWhenClosed<R>(w: World<P2PEvent>, accept: P2PEvent -> Option<R>, timeout: nat,
                                             latest: nat, now: nat, ticks: nat, sending: Sending)
    requires w.Valid() && sending.Sent?
    requires Exchange(w, accept, timeout, latest, now, ticks, sending).taken == None
    ensures var deadline, s := CallDeadline(w, timeout, latest, now, ticks, sending),
                               CallStart(w, timeout, latest, now, ticks, sending);
            Exchange(w, accept, timeout, latest, now, ticks, sending).end.now < deadline <==>
              && w.closedAt.Some?
              && ClosingPoll(w, StateAt(w, s, |w.stream|).value, w.closedAt.value) < deadline
  {
    var deadline, s := CallDeadline(w, timeout, latest, now, ticks, sending),
                       CallStart(w, timeout, latest, now, ticks, sending);
    CallIsAWait(w, accept, timeout, latest, now, ticks, sending);
    GivesUpEarlyExactlyWhenClosed(w, accept, deadline, s);
  }

  /** For replies published before the deadline: when the turn that reads it
      begins before the deadline. */
  lemma AnsweredExactlyWhenReachedInTime<R>(w: World<P2PEvent>, accept: P2PEvent -> Option<R>, timeout: nat,
                                            latest: nat, now: nat, ticks: nat, sending: Sending, i: nat)
    requires w.Valid() && sending.Sent? && w.PublishedBy(now) <= i && Accepted(w, accept, i)
    requires var deadline, s := CallDeadline(w, timeout, latest, now, ticks, sending),
                                CallStart(w, timeout, latest, now, ticks, sending);
             && w.stream[i].time < deadline
             && forall j :: s.next <= j < i && Accepted(w, accept, j) ==> TurnsTo(w, s, j) == None
    ensures var deadline, s := CallDeadline(w, timeout, latest, now, ticks, sending),
                               CallStart(w, timeout, latest, now, ticks, sending);
            Exchange(w, accept, timeout, latest, now, ticks, sending).taken == Some(i) <==>
              TurnsTo(w, s, i).Some? && TurnsTo(w, s, i).value < deadline
  {
    var deadline, s := CallDeadline(w, timeout, latest, now, ticks, sending),
                       CallStart(w, timeout, latest, now, ticks, sending);
    CallIsAWait(w, accept, timeout, latest, now, ticks, sending);
    TakenExactlyWhenReachedInTime(w, accept, deadline, s, i);
  }

  /** A prompt caller whose buffer takes every burst, also while it sends, is
      answered by the first acceptable event published after it subscribed,
      exactly when that comes before the deadline, or at it with nothing left to
      read before it. */
  lemma PromptCallIsAnswered<R>(w: World<P2PEvent>, accept: P2PEvent -> Option<R>, timeout: nat, latest: nat,
                                now: nat, ticks: nat, took: nat, i: nat)
    requires w.Valid() && Prompt(w) && BurstsFit(w, StateAfterSending(w, now, ticks, Sent(took)))
    requires w.PublishedBy(now) <= i && Accepted(w, accept, i)
    requires forall j :: w.PublishedBy(now) <= j < i ==> !Accepted(w, accept, j)
    ensures Exchange(w, accept, timeout, latest, now, ticks, Sent(took)).taken == Some(i) <==>
              && now + took + timeout <= latest && timeout > 0
              && w.stream[i].time <= now + took + timeout
              && forall j :: w.PublishedBy(now) <= j < i ==> w.stream[j].time < now + took + timeout
  {
    var deadline, s := now + took + timeout, State(w.PublishedBy(now), now + took, ticks + 1);
    if deadline <= latest {
      PromptExchange(w, accept, timeout, latest, now, ticks, took);
      PromptCallerGetsTheReply(w, accept, deadline, s, i);
    } else {
      UnrepresentableTimeoutGivesUp(w, accept, timeout, latest, now, ticks, Sent(took));
    }
  }

  lemma PromptExchange<R>(w: World<P2PEvent>, accept: P2PEvent -> Option<R>, timeout: nat, latest: nat,
                          now: nat, ticks: nat, took: nat)
    requires w.Valid() && Prompt(w) && now + took + timeout <= latest
    ensures Exchange(w, accept, timeout, latest, now, ticks, Sent(took)) ==
            Await(w, accept, now + took + timeout, State(w.PublishedBy(now), now + took, ticks + 1))
  {
  }

  /** A timeout that cannot be added to the clock gives up at once. */
  lemma UnrepresentableTimeoutGivesUp<R>(w: World<P2PEvent>, accept: P2PEvent -> Option<R>, timeout: nat,
                                         latest: nat, now: nat, ticks: nat, sending: Sending)
    requires w.Valid() && now + sending.took + timeout > latest
    ensures Exchange(w, accept, timeout, latest, now, ticks, sending).taken == None
  {
  }

  /** Two callers with different request ids never take the same event, whatever
      they asked of whom and whenever they started. */
  lemma RepliesAreNotShared<T, E, T', E'>(w: World<P2PEvent>, q: Request<T, E>, p: Request<T', E'>,
                                          deadline: nat, s: State, deadline': nat, s': State)
    requires w.Valid() && s.next <= |w.stream| && s'.next <= |w.stream| && q.id != p.id
    ensures var taken, taken' := Await(w, q.Accept, deadline, s).taken, Await(w, p.Accept, deadline', s').taken;
            taken.Some? ==> taken != taken'
  {
  }

  /** Nor does it matter to a caller what those events say: any that do not
      answer it can be replaced by any others that do not. */
  lemma OtherAnswersDoNotInterfere<T, E>(w: World<P2PEvent>, v: World<P2PEvent>, q: Request<T, E>,
                                         deadline: nat, s: State)
    requires w.Valid() && v.Valid() && SameTimes(w, v) && s.next <= |w.stream|
    requires forall i :: 0 <= i < |w.stream| ==>
               || v.stream[i] == w.stream[i]
               || (!Answers(w.stream[i].event, q.target, q.id) && !Answers(v.stream[i].event, q.target, q.id))
    ensures Await(v, q.Accept, deadline, s) == Await(w, q.Accept, deadline, s)
  {
    forall i | 0 <= i < |w.stream|
      ensures Accepted(w, q.Accept, i) <==> Accepted(v, q.Accept, i)
    {
      AcceptedExactlyWhenAnswering(q, w.stream[i].event);
      AcceptedExactlyWhenAnswering(q, v.stream[i].event);
    }
    RefusedEventsAreAlike(w, v, q.Accept, deadline, s);
  }
}
