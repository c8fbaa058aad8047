/** Waiting on a bounded broadcast for the first event a caller accepts, until a
    deadline. */
module EventLoop {
  import opened Wrappers

  datatype Published<V> = Published(time: nat, event: V)

  /** One answer of the channel. An empty channel answers nothing, whether it is
      closed or the wait timed out; the loop ends on both. */
  datatype Delivery = Event(index: nat) | Lagged(skipped: nat)

  function Delay(delays: seq<nat>, tick: nat): nat {
    if tick < |delays| then delays[tick] else 0
  }

  /** The broadcast as it will happen: what is published when, when the channel
      closes, how many events it holds, and how much time passes before each
      successive reading of the clock (none, beyond the list). */
  datatype World<!V> =
    World(stream: seq<Published<V>>, closedAt: Option<nat>, capacity: nat, delays: seq<nat>)
  {
    ghost predicate Valid() {
      && capacity > 0
      && (forall i, j :: 0 <= i < j < |stream| ==> stream[i].time <= stream[j].time)
      && (closedAt.Some? ==> forall i :: 0 <= i < |stream| ==> stream[i].time <= closedAt.value)
    }

    /** How many events have been published by `now`. */
    function PublishedBy(now: nat): (n: nat)
      requires Valid()
      ensures n <= |stream|
    {
      CountUpTo(|stream|, now)
    }

    function CountUpTo(k: nat, now: nat): (n: nat)
      requires Valid() && k <= |stream|
      ensures n <= k
    {
      if k == 0 then 0 else if stream[k - 1].time <= now then k else CountUpTo(k - 1, now)
    }

    lemma {:induction false} PublishedInOrder(k: nat, now: nat)
      requires Valid() && k <= |stream|
      ensures forall i :: 0 <= i < k ==> (i < CountUpTo(k, now) <==> stream[i].time <= now)
    {
      if k > 0 {
        PublishedInOrder(k - 1, now);
      }
    }

    /** An event is overwritten once `capacity` newer ones are published. */
    ghost predicate Lost(i: nat, now: nat)
      requires Valid()
    {
      i + capacity < PublishedBy(now)
    }

    /** When a receiver at `next`, at time `now`, is woken: by its next event, by
        the channel closing or by the timer. */
    function WakeTime(next: nat, now: nat, timer: nat): nat {
      var first := if next < |stream| && stream[next].time < timer then stream[next].time else timer;
      var wake := if closedAt.Some? && closedAt.value < first then closedAt.value else first;
      if now < wake then wake else now
    }

    /** What a receiver at `next` gets at time `now`. */
    function Poll(next: nat, now: nat): (d: Option<Delivery>)
      requires Valid()
    {
      var published := PublishedBy(now);
      if published <= next then None
      else if published > next + capacity then Some(Lagged(published - capacity - next))
      else Some(Event(next))
    }
  }

  /** Where a caller stands: its place in the broadcast, the time, and how often
      the clock was read. */
  datatype State = State(next: nat, now: nat, ticks: nat)

  /** The index of the event taken, if any, and where the wait ended. */
  datatype Outcome = Outcome(taken: Option<nat>, end: State)

  /** Where one turn of the loop leaves the caller, and what the channel gave it;
      nothing, if the deadline had passed or the wait ended empty. */
  function Turn<V>(w: World<V>, deadline: nat, s: State): (r: (Option<Delivery>, State))
    requires w.Valid() && s.next <= |w.stream|
    ensures match r.0
            case None => r.1.next == s.next
            case Some(Event(i)) => i == s.next < r.1.next == i + 1 <= |w.stream|
            case Some(Lagged(skipped)) => s.next < r.1.next == s.next + skipped <= |w.stream|
  {
    var t0 := s.now + Delay(w.delays, s.ticks);
    if t0 >= deadline then (None, State(s.next, t0, s.ticks + 1)) else
    var t1 := t0 + Delay(w.delays, s.ticks + 1);
    var remaining := if t1 < deadline then deadline - t1 else 0;
    var t2 := t1 + Delay(w.delays, s.ticks + 2);
    var t3 := w.WakeTime(s.next, t2, t2 + remaining) + Delay(w.delays, s.ticks + 3);
    var d := w.Poll(s.next, t3);
    (d, State(Advance(s.next, d), t3, s.ticks + 4))
  }

  function Advance(next: nat, d: Option<Delivery>): nat {
    match d
    case None => next
    case Some(Lagged(skipped)) => next + skipped
    case Some(Event(i)) => i + 1
  }

  /** The wait, turn by turn. */
  function Await<V, R>(w: World<V>, accept: V -> Option<R>, deadline: nat, s: State): (o: Outcome)
    requires w.Valid() && s.next <= |w.stream|
    ensures o.end.next <= |w.stream|
    ensures o.taken.Some? ==> o.taken.value < |w.stream| && accept(w.stream[o.taken.value].event).Some?
    decreases |w.stream| - s.next
  {
    var (d, after) := Turn(w, deadline, s);
    match d
    case None => Outcome(None, after)
    case Some(Lagged(_)) => Await(w, accept, deadline, after)
    case Some(Event(i)) =>
      if accept(w.stream[i].event).Some? then Outcome(Some(i), after) else Await(w, accept, deadline, after)
  }

  // ---------------------------------------------------------------------------
  // The loop
  // ---------------------------------------------------------------------------

  class Clock {
    const delays: seq<nat>
    var now: nat
    var ticks: nat

    constructor (delays: seq<nat>, now: nat)
      ensures this.delays == delays && this.now == now && ticks == 0
    {
      this.delays, this.now, ticks := delays, now, 0;
    }

    method Read() returns (t: nat)
      modifies this
      ensures t == now == old(now) + Delay(delays, old(ticks)) && ticks == old(ticks) + 1
    {
      now, ticks := now + Delay(delays, ticks), ticks + 1;
      t := now;
    }

    /** Time passes while the caller waits for something else. */
    method Pass(time: nat)
      modifies this
      ensures now == old(now) + time && ticks == old(ticks)
    {
      now := now + time;
    }

    /** Time moves to `wake`, and past it if the caller is scheduled late. */
    method SleepUntil(wake: nat)
      modifies this
      ensures now == (if old(now) < wake then wake else old(now)) + Delay(delays, old(ticks)) && ticks == old(ticks) + 1
    {
      now, ticks := (if now < wake then wake else now) + Delay(delays, ticks), ticks + 1;
    }
  }

  /** One subscription to the broadcast. */
  class Receiver<!V> {
    const world: World<V>
    var next: nat

    /** A subscription sees what is published after it. */
    constructor (world: World<V>, now: nat)
      requires world.Valid()
      ensures this.world == world && next == world.PublishedBy(now)
    {
      this.world, next := world, world.PublishedBy(now);
    }

    /** `recv` under a timeout that starts now. */
    method ReceiveWithin(clock: Clock, remaining: nat) returns (d: Option<Delivery>)
      requires world.Valid() && clock.delays == world.delays
      modifies this, clock
      ensures clock.now == world.WakeTime(old(next), old(clock.now), old(clock.now) + remaining)
                           + Delay(world.delays, old(clock.ticks))
      ensures clock.ticks == old(clock.ticks) + 1
      ensures d == world.Poll(old(next), clock.now)
      ensures next == Advance(old(next), d)
    {
      clock.SleepUntil(world.WakeTime(next, clock.now, clock.now + remaining));
      d := world.Poll(next, clock.now);
      next := Advance(next, d);
    }
  }

  /** One turn: the deadline check, and the channel's answer within what is left. */
  method NextDelivery<V>(events: Receiver<V>, clock: Clock, deadline: nat) returns (d: Option<Delivery>)
    requires events.world.Valid() && clock.delays == events.world.delays && events.next <= |events.world.stream|
    modifies events, clock
    ensures var turn := Turn(events.world, deadline, State(old(events.next), old(clock.now), old(clock.ticks)));
            turn == (d, State(events.next, clock.now, clock.ticks))
  {
    var t := clock.Read();
    if t >= deadline {
      return None;
    }
    t := clock.Read();
    var remaining := if t < deadline then deadline - t else 0;
    t := clock.Read();
    d := events.ReceiveWithin(clock, remaining);
  }

  /** The loop: skip what is not accepted, and lag notices, until the deadline or
      the end of the broadcast. */
  method AwaitAccepted<V, R>(events: Receiver<V>, clock: Clock, accept: V -> Option<R>, deadline: nat)
    returns (r: Option<R>)
    requires events.world.Valid() && clock.delays == events.world.delays && events.next <= |events.world.stream|
    modifies events, clock
    ensures var w := events.world;
            var o := Await(w, accept, deadline, State(old(events.next), old(clock.now), old(clock.ticks)));
            && State(events.next, clock.now, clock.ticks) == o.end
            && r == match o.taken
                    case None => None
                    case Some(i) => accept(w.stream[i].event)
  {
    ghost var w := events.world;
    ghost var o := Await(w, accept, deadline, State(events.next, clock.now, clock.ticks));
    while true
      invariant events.next <= |w.stream|
      invariant Await(w, accept, deadline, State(events.next, clock.now, clock.ticks)) == o
      decreases |w.stream| - events.next
    {
      var d := NextDelivery(events, clock, deadline);
      match d {
        case None => return None;
        case Some(Lagged(_)) =>
        case Some(Event(i)) =>
          r := accept(events.world.stream[i].event);
          if r.Some? {
            return;
          }
      }
    }
  }
}
