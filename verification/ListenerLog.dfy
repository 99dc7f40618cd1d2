/** What the listener's inner loop delivers, in terms of the log. */
module ListenerLog {
  import opened BusIndex
  import opened EventBus
  import opened BusMachine
  import opened SerialBus
  import opened RedisBus
  import opened RedisDelivery
  import opened RedisListener

  function Pushes(log: seq<Message>): seq<Inbound> {
    seq(|log|, i requires 0 <= i < |log| => Pushed(log[i]))
  }

  /** The events of a history of publishes on the channels `asked`. */
  function Picked(log: seq<Published>, asked: seq<Channel>): seq<Event> {
    if log == [] then []
    else Picked(log[..|log| - 1], asked) + if log[|log| - 1].channel in asked then [log[|log| - 1].event] else []
  }

  lemma PickedSnoc(log: seq<Published>, p: Published, asked: seq<Channel>)
    ensures Picked(log + [p], asked) == Picked(log, asked) + if p.channel in asked then [p.event] else []
  {
    assert (log + [p])[..|log + [p]| - 1] == log;
  }

  lemma WantedAreWithin(log: seq<Published>, asked: seq<Channel>)
    ensures Within(Wanted(log, asked, 0, |log|), |log|)
  {
    WantedIsExact(log, asked, 0, |log|);
    var ns := Wanted(log, asked, 0, |log|);
    assert forall j | 0 <= j < |ns| :: ns[j] in ns;
  }

  /** That is what a mailbox open throughout holds of it. */
  lemma {:induction false} PickedIsWanted(log: seq<Published>, asked: seq<Channel>)
    ensures Within(Wanted(log, asked, 0, |log|), |log|)
    ensures Picked(log, asked) == EventsOf(log, Wanted(log, asked, 0, |log|))
  {
    WantedAreWithin(log, asked);
    if log != [] {
      var init, p := log[..|log| - 1], log[|log| - 1];
      assert log == init + [p];
      PickedIsWanted(init, asked);
      WantedLogGrows(init, p, asked, 0, |init|);
    }
  }

  lemma OneMorePicked(prefix: string, log: seq<Message>, m: Message, asked: seq<Channel>)
    requires prefix <= m.raw
    ensures Picked(AsPublished(prefix, log + [m]), asked) ==
            Picked(AsPublished(prefix, log), asked) + EventsIn(prefix, Pushed(m), asked)
  {
    var before := AsPublished(prefix, log);
    AsPublishedSnoc(prefix, log, m);
    if m.payload.Json? {
      PickedSnoc(before, Published(ChannelOf(prefix, m), m.payload.event), asked);
    } else {
      assert before + [] == before;
    }
  }

  lemma PushesSnoc(log: seq<Message>, m: Message)
    ensures Pushes(log + [m]) == Pushes(log) + [Pushed(m)]
  {
  }

  lemma {:induction false} PushedIsPicked(prefix: string, log: seq<Message>, asked: seq<Channel>)
    requires forall i | 0 <= i < |log| :: prefix <= log[i].raw
    ensures EventsFor(prefix, Pushes(log), asked) == Picked(AsPublished(prefix, log), asked)
  {
    if log != [] {
      var init, m := log[..|log| - 1], log[|log| - 1];
      assert log == init + [m];
      PushedIsPicked(prefix, init, asked);
      PushesSnoc(init, m);
      assert (Pushes(init) + [Pushed(m)])[..|log| - 1] == Pushes(init);
      OneMorePicked(prefix, init, m, asked);
    }
  }

  /** A connection that hands over a stretch of the log, of which entry k is the first that is not UTF-8, delivers to
      each mailbox what an in-process bus would have delivered of the publishes in front of that entry. */
  lemma ConnectionIsTheLog(prefix: string, log: seq<Message>, asked: seq<Channel>, k: nat)
    requires forall i | 0 <= i < |log| :: prefix <= log[i].raw
    requires k <= |log| && (forall i | 0 <= i < k :: !log[i].payload.Binary?) && (k < |log| ==> log[k].payload.Binary?)
    ensures var heard := AsPublished(prefix, log[..k]);
            && Within(Wanted(heard, asked, 0, |heard|), |heard|)
            && EventsFor(prefix, Readable(Pushes(log)), asked) == EventsOf(heard, Wanted(heard, asked, 0, |heard|))
  {
    PickedIsWanted(AsPublished(prefix, log[..k]), asked);
    ReadableStops(Pushes(log), k);
    assert Pushes(log)[..k] == Pushes(log[..k]);
    PushedIsPicked(prefix, log[..k], asked);
  }
}
