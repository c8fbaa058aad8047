/** Sending a chunk request and waiting for its reply. */
module ChunkProtocol {
  import opened Wrappers
  import ByteStrings
  import ChunkMessages
  import opened EventLoop

  type PeerId = ByteStrings.XorName

  type MultiAddr = string

  datatype P2PEvent =
    | Message(topic: string, source: Option<PeerId>, transportSource: Option<MultiAddr>, data: ByteStrings.Bytes)
    | OtherEvent

  datatype ChunkProtocolResponse<T, E> =
    ChunkProtocolResponse(result: Result<T, E>, sourcePeer: PeerId, transportSource: Option<MultiAddr>)

  /** What one caller asked, and how it reads the answer. */
  datatype Request<!T, !E> =
    Request(target: PeerId, id: ByteStrings.uint64, handler: ChunkMessages.ChunkMessageBody -> Option<Result<T, E>>)
  {
    /** The loop's filters, in order: topic, source, decoding, request id, handler. */
    function Accept(e: P2PEvent): Option<ChunkProtocolResponse<T, E>> {
      match e
      case OtherEvent => None
      case Message(topic, source, transportSource, data) =>
        if topic != ChunkMessages.CHUNK_PROTOCOL_ID || source != Some(target) then None else
        match ChunkMessages.Decode(data)
        case Failure(_) => None
        case Success(message) =>
          if message.requestId != id then None else
          match handler(message.body)
          case None => None
          case Some(result) => Some(ChunkProtocolResponse(result, target, transportSource))
    }
  }

  /** How sending went, and how long it took. */
  datatype Sending = Sent(took: nat) | NotSent(took: nat, reason: string)

  /** When and how a caller started: the subscription is taken before sending. */
  function StateAfterSending(w: World<P2PEvent>, now: nat, ticks: nat, sending: Sending): State
    requires w.Valid()
  {
    State(w.PublishedBy(now), now + sending.took, ticks)
  }

  /** The deadline: the timeout from now, or the present where that cannot be
      represented; and the time and readings spent on it. */
  function Deadline(delays: seq<nat>, timeout: nat, latest: nat, s: State): (nat, State) {
    var now := s.now + Delay(delays, s.ticks);
    if now + timeout <= latest then
      (now + timeout, State(s.next, now, s.ticks + 1))
    else
      var present := now + Delay(delays, s.ticks + 1);
      (present, State(s.next, present, s.ticks + 2))
  }

  /** The outcome of a call: the event that answered it, and where it ended. */
  function Exchange<R>(w: World<P2PEvent>, accept: P2PEvent -> Option<R>, timeout: nat, latest: nat,
                       now: nat, ticks: nat, sending: Sending): (o: Outcome)
    requires w.Valid()
    ensures o.taken.Some? ==> o.taken.value < |w.stream| && accept(w.stream[o.taken.value].event).Some?
  {
    var s := StateAfterSending(w, now, ticks, sending);
    if sending.NotSent? then Outcome(None, s) else
      var (deadline, after) := Deadline(w.delays, timeout, latest, s);
      Await(w, accept, deadline, after)
  }

  method FixDeadline(clock: Clock, timeout: nat, latest: nat, ghost next: nat) returns (deadline: nat)
    modifies clock
    ensures Deadline(clock.delays, timeout, latest, State(next, old(clock.now), old(clock.ticks))) ==
            (deadline, State(next, clock.now, clock.ticks))
    ensures var read := old(clock.now) + Delay(clock.delays, old(clock.ticks));
            if read + timeout <= latest then
              deadline == read + timeout && clock.now == read && clock.ticks == old(clock.ticks) + 1
            else
              && deadline == clock.now == read + Delay(clock.delays, old(clock.ticks) + 1)
              && clock.ticks == old(clock.ticks) + 2
  {
    deadline := clock.Read();
    if deadline + timeout <= latest {
      deadline := deadline + timeout;
    } else {
      deadline := clock.Read();
    }
  }

  /** Subscribe, send, fix the deadline, wait. */
  method SendAndAwait<R, E>(w: World<P2PEvent>, clock: Clock, accept: P2PEvent -> Option<R>,
                            timeout: nat, latest: nat, sending: Sending, sendError: string -> E, timeoutError: E)
    returns (r: Result<R, E>)
    requires w.Valid() && clock.delays == w.delays
    modifies clock
    ensures var o := Exchange(w, accept, timeout, latest, old(clock.now), old(clock.ticks), sending);
            && (clock.now, clock.ticks) == (o.end.now, o.end.ticks)
            && r == if sending.NotSent? then Failure(sendError(sending.reason))
                    else if o.taken.None? then Failure(timeoutError)
                    else Success(accept(w.stream[o.taken.value].event).value)
  {
    var events := new Receiver(w, clock.now);
    clock.Pass(sending.took);
    if sending.NotSent? {
      return Failure(sendError(sending.reason));
    }
    var deadline := FixDeadline(clock, timeout, latest, events.next);
    var response := AwaitAccepted(events, clock, accept, deadline);
    r := if response.None? then Failure(timeoutError) else Success(response.value);
  }

  /** `send_and_await_chunk_response_with_metadata`. */
  method SendAndAwaitChunkResponseWithMetadata<T, E>(w: World<P2PEvent>, clock: Clock, q: Request<T, E>,
                                                     timeout: nat, latest: nat, sending: Sending,
                                                     sendError: string -> E, timeoutError: E)
    returns (r: Result<ChunkProtocolResponse<T, E>, E>)
    requires w.Valid() && clock.delays == w.delays
    modifies clock
    ensures var o := Exchange(w, q.Accept, timeout, latest, old(clock.now), old(clock.ticks), sending);
            && (clock.now, clock.ticks) == (o.end.now, o.end.ticks)
            && r == if sending.NotSent? then Failure(sendError(sending.reason))
                    else if o.taken.None? then Failure(timeoutError)
                    else Success(q.Accept(w.stream[o.taken.value].event).value)
  {
    r := SendAndAwait(w, clock, q.Accept, timeout, latest, sending, sendError, timeoutError);
  }

  /** `send_and_await_chunk_response`: the same call, keeping only the result. */
  method SendAndAwaitChunkResponse<T, E>(w: World<P2PEvent>, clock: Clock, q: Request<T, E>,
                                         timeout: nat, latest: nat, sending: Sending,
                                         sendError: string -> E, timeoutError: E)
    returns (r: Result<T, E>)
    requires w.Valid() && clock.delays == w.delays
    modifies clock
    ensures var o := Exchange(w, q.Accept, timeout, latest, old(clock.now), old(clock.ticks), sending);
            && (clock.now, clock.ticks) == (o.end.now, o.end.ticks)
            && r == if sending.NotSent? then Failure(sendError(sending.reason))
                    else if o.taken.None? then Failure(timeoutError)
                    else q.Accept(w.stream[o.taken.value].event).value.result
  {
    var response := SendAndAwaitChunkResponseWithMetadata(w, clock, q, timeout, latest, sending,
                                                          sendError, timeoutError);
    r := match response
         case Success(envelope) => envelope.result
         case Failure(e) => Failure(e);
  }
}
