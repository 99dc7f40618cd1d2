/** The listener thread of a Redis worker as the loops it runs: reading one connection, and reconnecting. */
module RedisListener {
  import opened BusIndex
  import opened EventBus
  import opened RedisBus

  /** What `get_message` returns: nothing within the poll interval, a control message, or a pushed one. */
  datatype Inbound = Silence | Control | Pushed(message: Message)

  /** One trip around the reconnect loop; each ends with the connection failing. */
  datatype Session = Session(subscribed: bool, inbound: seq<Inbound>)

  const RECONNECT_BACKOFF_SECONDS: nat := 1
  const RECONNECT_BACKOFF_MAX_SECONDS: nat := 30

  /** The events one message puts into a mailbox open on the channels `asked`. */
  function EventsIn(prefix: string, x: Inbound, asked: seq<Channel>): seq<Event> {
    match x
    case Pushed(m) => if m.payload.Json? && ChannelOf(prefix, m) in asked then [m.payload.event] else []
    case _ => []
  }

  /** The same for all the messages of one connection. */
  function EventsFor(prefix: string, inbound: seq<Inbound>, asked: seq<Channel>): seq<Event> {
    if inbound == [] then []
    else EventsFor(prefix, inbound[..|inbound| - 1], asked) + EventsIn(prefix, inbound[|inbound| - 1], asked)
  }

  lemma EventsForSnoc(prefix: string, inbound: seq<Inbound>, k: nat, asked: seq<Channel>)
    requires k < |inbound|
    ensures EventsFor(prefix, inbound[..k + 1], asked) ==
            EventsFor(prefix, inbound[..k], asked) + EventsIn(prefix, inbound[k], asked)
  {
    assert inbound[..k + 1][..k] == inbound[..k];
  }

  predicate Fatal(x: Inbound) {
    x.Pushed? && x.message.payload.Binary?
  }

  /** The part of a connection's messages that the inner loop gets through: up to the first that is not UTF-8. */
  function Readable(inbound: seq<Inbound>): seq<Inbound> {
    if inbound == [] || Fatal(inbound[0]) then [] else [inbound[0]] + Readable(inbound[1..])
  }

  lemma {:induction false} ReadableStops(inbound: seq<Inbound>, k: nat)
    requires k <= |inbound| && (forall i | 0 <= i < k :: !Fatal(inbound[i])) && (k < |inbound| ==> Fatal(inbound[k]))
    ensures Readable(inbound) == inbound[..k]
  {
    if k > 0 {
      ReadableStops(inbound[1..], k - 1);
      assert [inbound[0]] + inbound[1..][..k - 1] == inbound[..k];
    }
  }

  /** And over several connections in a row: only those that subscribed bring anything. */
  function SessionEvents(prefix: string, sessions: seq<Session>, asked: seq<Channel>): seq<Event> {
    if sessions == [] then []
    else
      var n := |sessions| - 1;
      SessionEvents(prefix, sessions[..n], asked) +
      if sessions[n].subscribed then EventsFor(prefix, Readable(sessions[n].inbound), asked) else []
  }

  /** How many connections in a row have failed to subscribe when the k-th one ends. */
  function FailuresInARow(sessions: seq<Session>, k: nat): nat
    requires k < |sessions|
  {
    if sessions[k].subscribed || k == 0 then 0 else 1 + FailuresInARow(sessions, k - 1)
  }

  function Doubled(backoff: nat): nat {
    if backoff * 2 < RECONNECT_BACKOFF_MAX_SECONDS then backoff * 2 else RECONNECT_BACKOFF_MAX_SECONDS
  }

  /** The pause after that many failures in a row: one second, doubled each time, up to the cap. */
  function Pause(failures: nat): nat {
    if failures == 0 then RECONNECT_BACKOFF_SECONDS else Doubled(Pause(failures - 1))
  }

  /** The backoff variable when the k-th connection is attempted. */
  function BackoffBefore(sessions: seq<Session>, k: nat): nat
    requires k <= |sessions|
  {
    if k == 0 then RECONNECT_BACKOFF_SECONDS else Doubled(Pause(FailuresInARow(sessions, k - 1)))
  }

  lemma PauseAfter(sessions: seq<Session>, k: nat)
    requires k < |sessions|
    ensures Pause(FailuresInARow(sessions, k)) ==
            if sessions[k].subscribed then RECONNECT_BACKOFF_SECONDS else BackoffBefore(sessions, k)
  {
    if sessions[k].subscribed || k == 0 {
      assert FailuresInARow(sessions, k) == 0;
    } else {
      assert FailuresInARow(sessions, k) == 1 + FailuresInARow(sessions, k - 1);
    }
  }

  /** What one connection puts into a mailbox. */
  function HeardInOne(prefix: string, session: Session, closed: bool, asked: seq<Channel>): seq<Event> {
    if closed || !session.subscribed then [] else EventsFor(prefix, Readable(session.inbound), asked)
  }

  function Heard(prefix: string, sessions: seq<Session>, closed: bool, asked: seq<Channel>): seq<Event> {
    if closed then [] else SessionEvents(prefix, sessions, asked)
  }

  lemma HeardStep(prefix: string, sessions: seq<Session>, k: nat, closed: bool, asked: seq<Channel>)
    requires k < |sessions|
    ensures Heard(prefix, sessions[..k + 1], closed, asked) ==
            Heard(prefix, sessions[..k], closed, asked) + HeardInOne(prefix, sessions[k], closed, asked)
  {
    assert sessions[..k + 1][..k] == sessions[..k];
  }

  lemma Appended<T>(start: seq<T>, a: seq<T>, middle: seq<T>, b: seq<T>, end: seq<T>)
    requires middle == start + a && end == middle + b
    ensures end == start + (a + b)
  {
  }

  class RedisEventBus {
    const prefix: string
    const local: MeinchatEventBus           // the registry code is the in-process bus's own
    var listening: bool

    constructor (prefix: string, local: MeinchatEventBus)
      ensures this.prefix == prefix && this.local == local && !listening
    {
      this.prefix := prefix;
      this.local := local;
      listening := false;
    }

    /** The inner loop: every well-formed pushed message reaches each open subscription of its channel once, in
        arrival order; silence, control messages and malformed payloads reach nobody; and one that is not UTF-8 ends
        the connection. */
    method Consume(inbound: seq<Inbound>)
      requires local.Valid()
      modifies set s | s in local.all :: s`queue
      ensures local.Valid()
      ensures forall s | s in local.all ::
        s.queue == old(s.queue) + if s.closed then [] else EventsFor(prefix, Readable(inbound), s.asked)
    {
      for k := 0 to |inbound|
        invariant local.Valid() && forall i | 0 <= i < k :: !Fatal(inbound[i])
        invariant forall s | s in local.all ::
          s.queue == old(s.queue) + if s.closed then [] else EventsFor(prefix, inbound[..k], s.asked)
      {
        label tick:
        if Fatal(inbound[k]) {
          ReadableStops(inbound, k);
          return;
        }
        match inbound[k] {
          case Pushed(m) =>
            if m.payload.Json? {
              local.Publish(Channel(StripPrefix(prefix, m.raw)), m.payload.event);
            }
          case _ =>
        }
        forall s | s in local.all
          ensures s.queue == old(s.queue) + if s.closed then [] else EventsFor(prefix, inbound[..k + 1], s.asked)
        {
          EventsForSnoc(prefix, inbound, k, s.asked);
          assert s.queue == old@tick(s.queue) + if s.closed then [] else EventsIn(prefix, inbound[k], s.asked);
          Appended(old(s.queue), if s.closed then [] else EventsFor(prefix, inbound[..k], s.asked), old@tick(s.queue),
                   if s.closed then [] else EventsIn(prefix, inbound[k], s.asked), s.queue);
        }
      }
      ReadableStops(inbound, |inbound|);
    }

    /** One connection: subscribe, consume until it fails, and work out the pause and the next backoff. */
    method Attempt(session: Session, backoff: nat) returns (pause: nat, next: nat)
      requires local.Valid()
      modifies `listening, set s | s in local.all :: s`queue
      ensures local.Valid() && !listening
      ensures pause == if session.subscribed then RECONNECT_BACKOFF_SECONDS else backoff
      ensures next == Doubled(pause)
      ensures forall s | s in local.all :: s.queue == old(s.queue) + HeardInOne(prefix, session, s.closed, s.asked)
    {
      pause := backoff;
      if session.subscribed {
        listening := true;
        pause := RECONNECT_BACKOFF_SECONDS;
        Consume(session.inbound);
      }
      listening := false;
      next := Doubled(pause);
    }

    /** The outer loop: reconnect after every failure, waiting twice as long each time up to the cap, and
        starting over at one second after a connection that did subscribe. */
    method Listen(sessions: seq<Session>) returns (pauses: seq<nat>)
      requires local.Valid()
      modifies `listening, set s | s in local.all :: s`queue
      ensures local.Valid() && !listening
      ensures |pauses| == |sessions|
      ensures forall k {:trigger pauses[k]} | 0 <= k < |sessions| :: pauses[k] == Pause(FailuresInARow(sessions, k))
      ensures forall s | s in local.all ::
        s.queue == old(s.queue) + Heard(prefix, sessions, s.closed, s.asked)
    {
      pauses := [];
      var backoff := RECONNECT_BACKOFF_SECONDS;
      listening := false;
      for k := 0 to |sessions|
        invariant local.Valid() && !listening
        invariant |pauses| == k
        invariant forall j {:trigger pauses[j]} | 0 <= j < k :: pauses[j] == Pause(FailuresInARow(sessions, j))
        invariant backoff == BackoffBefore(sessions, k)
        invariant forall s | s in local.all :: s.queue == old(s.queue) + Heard(prefix, sessions[..k], s.closed, s.asked)
      {
        var pause;
        label tick:
        PauseAfter(sessions, k);
        pause, backoff := Attempt(sessions[k], backoff);
        pauses := pauses + [pause];
        forall s | s in local.all
          ensures s.queue == old(s.queue) + Heard(prefix, sessions[..k + 1], s.closed, s.asked)
        {
          HeardStep(prefix, sessions, k, s.closed, s.asked);
          Appended(old(s.queue), Heard(prefix, sessions[..k], s.closed, s.asked), old@tick(s.queue),
                   HeardInOne(prefix, sessions[k], s.closed, s.asked), s.queue);
        }
      }
      assert sessions[..|sessions|] == sessions;
    }
  }

  function Power(n: nat): nat {
    if n == 0 then 1 else 2 * Power(n - 1)
  }

  /** In closed form the pause is 1, 2, 4, 8 or 16 seconds after so many failures in a row, and 30 after any more. */
  lemma {:induction false} PauseIsCappedPower(failures: nat)
    ensures Pause(failures) == if failures < 5 then Power(failures) else 30
  {
    if failures > 0 {
      PauseIsCappedPower(failures - 1);
      if failures <= 5 {
        PowerOfFour(failures - 1);
      }
    }
  }

  lemma PowerOfFour(n: nat)
    requires n <= 4
    ensures Power(n) <= 16 && (n < 4 ==> Power(n) <= 8) && (n == 4 ==> Power(n) == 16)
  {
    assert Power(0) == 1 && Power(1) == 2 && Power(2) == 4 && Power(3) == 8 && Power(4) == 16;
  }
}
