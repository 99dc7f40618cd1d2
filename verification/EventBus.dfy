/** The in-process bus and its subscriptions, as the objects one request drives from start to end.
    `BusMachine` takes the same operations apart into the steps that threads interleave. */
module EventBus {
  import opened Common
  import opened BusIndex

  datatype Event = Event(kind: string, payload: string)

  /** One client's mailbox. */
  class Subscription {
    const channel: Channel
    const channels: seq<Channel>            // every bucket `Close` unregisters from
    const onClose: MeinchatEventBus
    var queue: seq<Event>
    var closed: bool
    ghost const asked: seq<Channel>         // the distinct channels it was registered under

    constructor (channel: Channel, asked: seq<Channel>, bus: MeinchatEventBus)
      ensures this.channel == channel && this.asked == asked && onClose == bus
      ensures channels == if asked == [] then [channel] else asked
      ensures queue == [] && !closed
    {
      this.channel := channel;
      this.channels := if asked == [] then [channel] else asked;
      this.asked := asked;
      onClose := bus;
      queue := [];
      closed := false;
    }

    method Deliver(event: Event)
      modifies this`queue
      ensures queue == if closed then old(queue) else old(queue) + [event]
    {
      if !closed {
        queue := queue + [event];
      }
    }

    /** Closing is idempotent: it marks the mailbox and leaves every bucket, once. */
    method Close()
      requires onClose.Valid() && this in onClose.all
      modifies this`closed, onClose`subs
      ensures onClose.Valid() && closed
      ensures old(closed) ==> onClose.subs == old(onClose.subs)
      ensures forall c :: !Holds(onClose.subs, c, this)
      ensures forall c, s: Subscription :: s != this ==> (Holds(onClose.subs, c, s) <==> Holds(old(onClose.subs), c, s))
    {
      if closed {
        assert forall c :: Holds(onClose.subs, c, this) ==> c in onClose.subs;
        return;
      }
      closed := true;
      onClose.Unsubscribe(this);
    }
  }

  /** A channel the subscription asked for, while it is open. */
  ghost predicate Wants(s: Subscription, c: Channel)
    reads s
  {
    !s.closed && c in s.asked
  }

  ghost predicate Known(bucket: seq<Subscription>, all: set<Subscription>) {
    forall s | s in bucket :: s in all
  }

  /** Exactly the open subscriptions are registered, each under exactly the channels it asked for. */
  ghost predicate Agrees(index: Index<Subscription>, all: set<Subscription>)
    reads all
  {
    && WellFormed(index)
    && (forall c | c in index :: Known(index[c], all))
    && (forall c, s | s in all :: Holds(index, c, s) <==> Wants(s, c))
  }

  /** The same between the two steps of a close: `leaving` is marked closed but may still be registered. */
  ghost predicate AgreesExcept(index: Index<Subscription>, all: set<Subscription>, leaving: Subscription)
    reads all
  {
    && WellFormed(index)
    && (forall c | c in index :: Known(index[c], all))
    && (forall c, s | s in all && s != leaving :: Holds(index, c, s) <==> Wants(s, c))
    && (forall c :: Holds(index, c, leaving) ==> c in leaving.asked)
  }

  lemma RegisterAgrees(index: Index<Subscription>, all: set<Subscription>, sub: Subscription)
    requires Agrees(index, all) && sub !in all && !sub.closed && NoDup(sub.asked)
    ensures Agrees(Register(index, sub.asked, sub), all + {sub})
  {
    var after := Register(index, sub.asked, sub);
    assert forall c | c in index :: sub !in index[c];
    RegisterKeepsWellFormed(index, sub.asked, sub);
    RegisterBuckets(index, sub.asked, sub);
    forall c | c in after
      ensures Known(after[c], all + {sub})
    {
      assert after[c] == Bucket(after, c);
      assert Known(Bucket(index, c), all);
    }
  }

  lemma UnregisterAgrees(index: Index<Subscription>, all: set<Subscription>, sub: Subscription)
    requires AgreesExcept(index, all, sub) && sub in all && sub.closed
    requires sub.channels == if sub.asked == [] then [sub.channel] else sub.asked
    ensures Agrees(Unregister(index, sub.channels, sub), all)
  {
    UnregisterMembers(index, sub.channels, sub);
    var after := Unregister(index, sub.channels, sub);
    forall c | c in after
      ensures Known(after[c], all)
    {
      forall s | s in after[c]
        ensures s in all
      {
        assert Holds(after, c, s);
        assert Known(index[c], all);
      }
    }
  }

  class MeinchatEventBus {
    var subs: Index<Subscription>
    ghost var all: set<Subscription>        // every subscription this bus ever handed out

    ghost predicate Valid()
      reads this, all
    {
      (forall s | s in all :: Owned(s)) && Agrees(subs, all)
    }

    ghost predicate Owned(s: Subscription)
      reads this
    {
      s.onClose == this && NoDup(s.asked) && s.channels == if s.asked == [] then [s.channel] else s.asked
    }

    constructor ()
      ensures Valid() && all == {} && subs == map[]
    {
      subs := map[];
      all := {};
    }

    /** One subscription registered under several channels; a channel listed twice registers once. */
    method SubscribeMany(channels: seq<Channel>) returns (sub: Subscription)
      requires Valid()
      modifies this
      ensures Valid() && fresh(sub) && all == old(all) + {sub}
      ensures sub.asked == Dedupe(channels) && sub.queue == [] && !sub.closed
      ensures sub.channel == if channels == [] then Channel("") else channels[0]
      ensures subs == Register(old(subs), Dedupe(channels), sub)
      ensures forall c :: Holds(subs, c, sub) <==> c in channels
    {
      var unique := DedupePreservingOrder(channels);
      DedupeIsDistinct(channels);
      if channels != [] {
        DedupeStartsWithHead(channels);
      }
      sub := new Subscription(if unique == [] then Channel("") else unique[0], unique, this);
      Enter(sub, unique);
    }

    /** The locked part of subscribing: append the new subscription to the bucket of each channel. */
    method Enter(sub: Subscription, unique: seq<Channel>)
      requires Valid() && sub !in all && !sub.closed && Owned(sub) && unique == sub.asked
      modifies this
      ensures Valid() && all == old(all) + {sub}
      ensures subs == Register(old(subs), sub.asked, sub)
      ensures forall c :: Holds(subs, c, sub) <==> c in sub.asked
    {
      ghost var before := subs;
      for k := 0 to |unique|
        invariant subs == Register(before, unique[..k], sub) && all == old(all)
      {
        assert unique[..k + 1][..k] == unique[..k];
        subs := subs[unique[k] := Bucket(subs, unique[k]) + [sub]];
      }
      assert unique[..|unique|] == unique;
      RegisterAgrees(before, all, sub);
      all := all + {sub};
    }

    /** Every open subscription that asked for the channel gets the event once; nobody else is touched. */
    method Publish(channel: Channel, event: Event)
      requires Valid()
      modifies set s | s in all :: s`queue
      ensures Valid()
      ensures forall s | s in all ::
        s.queue == old(s.queue) + if !s.closed && channel in s.asked then [event] else []
    {
      var snapshot := Bucket(subs, channel);
      assert forall s | s in all :: Holds(subs, channel, s) <==> !s.closed && channel in s.asked;
      assert NoDup(snapshot) && forall s | s in snapshot :: s in all && !s.closed;
      for k := 0 to |snapshot|
        invariant forall s | s in all && s in snapshot[..k] :: s.queue == old(s.queue) + [event]
        invariant forall s | s in all && s !in snapshot[..k] :: s.queue == old(s.queue)
      {
        var sub := snapshot[k];
        assert sub in snapshot;
        assert sub !in snapshot[..k];
        assert snapshot[..k + 1] == snapshot[..k] + [sub];
        sub.Deliver(event);
      }
      assert snapshot[..|snapshot|] == snapshot;
    }

    method Unsubscribe(sub: Subscription)
      requires sub in all && Owned(sub) && sub.closed
      requires AgreesExcept(subs, all, sub)
      requires forall s | s in all :: Owned(s)
      modifies this`subs
      ensures Valid()
      ensures subs == Unregister(old(subs), sub.channels, sub)
      ensures forall c, s: Subscription :: Holds(subs, c, s) <==> Holds(old(subs), c, s) && s != sub
    {
      var channels := sub.channels;
      ghost var before := subs;
      for k := 0 to |channels|
        invariant subs == Unregister(before, channels[..k], sub)
      {
        assert channels[..k + 1][..k] == channels[..k];
        var c := channels[k];
        if c in subs && sub in subs[c] {
          var bucket := RemoveFirst(subs[c], sub);
          if bucket == [] {
            subs := subs - {c};
          } else {
            subs := subs[c := bucket];
          }
        }
      }
      assert channels[..|channels|] == channels;
      UnregisterMembers(before, channels, sub);
      UnregisterAgrees(before, all, sub);
    }

    /** The count reported to health checks is the number of distinct channels with an open subscriber. */
    method ChannelCount() returns (n: nat)
      requires Valid()
      ensures n == |set s, c | s in all && c in s.asked && !s.closed :: c|
    {
      n := |subs|;
      assert subs.Keys == set s, c | s in all && c in s.asked && !s.closed :: c by {
        forall c | c in subs
          ensures exists s :: s in all && c in s.asked && !s.closed
        {
          assert Known(subs[c], all) && Holds(subs, c, subs[c][0]);
          assert Wants(subs[c][0], c);
        }
        forall s, c | s in all && c in s.asked && !s.closed
          ensures c in subs
        {
          assert Wants(s, c) && Holds(subs, c, s);
        }
      }
    }
  }

  lemma {:induction false} DedupeStartsWithHead<T>(xs: seq<T>)
    requires xs != []
    ensures Dedupe(xs) != [] && Dedupe(xs)[0] == xs[0]
  {
    if |xs| > 1 {
      DedupeStartsWithHead(xs[..|xs| - 1]);
    }
  }
}
