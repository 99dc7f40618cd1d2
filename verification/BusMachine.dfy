/** The in-process bus as the steps its threads interleave.

    The lock makes subscribing, taking a publish snapshot and unregistering single steps. Everything else
    runs outside it: a delivery reads the closed flag and then puts, and a close reads the flag, sets it
    and only then unregisters, so two closes of one subscription may both get past the first read. */
module BusMachine {
  import opened Common
  import opened BusIndex
  import opened EventBus

  /** A subscription by its number. `puts` is the history of its queue, as publish numbers; the first `taken`
      of them were consumed. `live`, `born` and `sealed` are history: still registered, and how many publishes
      had begun when it subscribed and when its closed flag was first set. */
  datatype Subscriber = Subscriber(asked: seq<Channel>, live: bool, closed: bool, puts: seq<nat>, taken: nat,
                                   born: nat, sealed: nat)

  /** The thread of one publish: its snapshot, how far the loop is, and whether it has just seen an open mailbox. */
  datatype Fanout = Fanout(snapshot: seq<nat>, next: nat, passed: bool)

  datatype Published = Published(channel: Channel, event: Event)

  datatype ClosePoint = SawOpen | Marked | Left

  datatype Closer = Closer(sub: nat, at: ClosePoint)

  /** `log[n]` is the n-th publish to begin and `fanouts[n]` its thread. */
  datatype State = State(index: Index<nat>, subs: seq<Subscriber>, log: seq<Published>, fanouts: seq<Fanout>,
                         closers: seq<Closer>)

  datatype Step =
    | Subscribe(channels: seq<Channel>)
    | BeginPublish(channel: Channel, event: Event)
    | CheckOpen(n: nat)
    | Put(n: nat)
    | BeginClose(sub: nat)
    | MarkClosed(k: nat)
    | Leave(k: nat)
    | Take(sub: nat)

  const START := State(map[], [], [], [], [])

  predicate Delivering(s: State, n: nat) {
    n < |s.fanouts| && s.fanouts[n].next < |s.fanouts[n].snapshot| &&
    s.fanouts[n].snapshot[s.fanouts[n].next] < |s.subs|
  }

  /** The subscription the n-th publish is about to deliver to. */
  function Target(s: State, n: nat): nat
    requires Delivering(s, n)
  {
    s.fanouts[n].snapshot[s.fanouts[n].next]
  }

  function Advance(f: Fanout): Fanout {
    f.(next := f.next + 1, passed := false)
  }

  /** What `close` unregisters from: an empty channel list stands for the channel "". */
  function Unregistered(sub: Subscriber): seq<Channel> {
    if sub.asked == [] then [Channel("")] else sub.asked
  }

  /** One step of one thread; a step that is not enabled changes nothing. */
  function Apply(s: State, step: Step): State {
    match step
    case Subscribe(channels) =>
      var asked := Dedupe(channels);
      s.(index := Register<nat>(s.index, asked, |s.subs|),
         subs := s.subs + [Subscriber(asked, true, false, [], 0, |s.log|, 0)])
    case BeginPublish(channel, event) =>
      s.(log := s.log + [Published(channel, event)],
         fanouts := s.fanouts + [Fanout(Bucket(s.index, channel), 0, false)])
    case CheckOpen(n) =>
      if Delivering(s, n) && !s.fanouts[n].passed then
        s.(fanouts := s.fanouts[n := if s.subs[Target(s, n)].closed then Advance(s.fanouts[n])
                                     else s.fanouts[n].(passed := true)])
      else s
    case Put(n) =>
      if Delivering(s, n) && s.fanouts[n].passed then
        var i := Target(s, n);
        s.(fanouts := s.fanouts[n := Advance(s.fanouts[n])],
           subs := s.subs[i := s.subs[i].(puts := s.subs[i].puts + [n])])
      else s
    case BeginClose(i) =>
      if i < |s.subs| && !s.subs[i].closed then s.(closers := s.closers + [Closer(i, SawOpen)]) else s
    case MarkClosed(k) =>
      if k < |s.closers| && s.closers[k].at == SawOpen && s.closers[k].sub < |s.subs| then
        var i := s.closers[k].sub;
        s.(closers := s.closers[k := Closer(i, Marked)],
           subs := s.subs[i := s.subs[i].(closed := true,
                                          sealed := if s.subs[i].closed then s.subs[i].sealed else |s.log|)])
      else s
    case Leave(k) =>
      if k < |s.closers| && s.closers[k].at == Marked && s.closers[k].sub < |s.subs| then
        var i := s.closers[k].sub;
        s.(closers := s.closers[k := Closer(i, Left)],
           index := Unregister<nat>(s.index, Unregistered(s.subs[i]), i),
           subs := s.subs[i := s.subs[i].(live := false)])
      else s
    case Take(i) =>
      if i < |s.subs| && s.subs[i].taken < |s.subs[i].puts| then
        s.(subs := s.subs[i := s.subs[i].(taken := s.subs[i].taken + 1)])
      else s
  }

  /** The state after any schedule of any number of threads. */
  function Run(steps: seq<Step>): State {
    if steps == [] then START else Apply(Run(steps[..|steps| - 1]), steps[|steps| - 1])
  }

  // ---- The index ---------------------------------------------------------------------------------

  ghost predicate Registered(s: State, c: Channel, i: nat) {
    i < |s.subs| && s.subs[i].live && c in s.subs[i].asked
  }

  ghost predicate IndexInv(s: State) {
    && WellFormed(s.index)
    && (forall i: nat | i < |s.subs| :: NoDup(s.subs[i].asked))
    && (forall c, i: nat :: Holds(s.index, c, i) <==> Registered(s, c, i))
  }

  ghost predicate CloserInv(s: State) {
    && (forall i | 0 <= i < |s.subs| :: !s.subs[i].closed ==> s.subs[i].live)
    && (forall k | 0 <= k < |s.closers| ::
          && s.closers[k].sub < |s.subs|
          && (s.closers[k].at != SawOpen ==> s.subs[s.closers[k].sub].closed)
          && (s.closers[k].at == Left ==> !s.subs[s.closers[k].sub].live))
  }

  lemma RegisterNewcomer(s: State, t: State, newcomer: Subscriber)
    requires IndexInv(s) && NoDup(newcomer.asked) && newcomer.live
    requires t.subs == s.subs + [newcomer] && WellFormed(t.index)
    requires forall c :: Bucket(t.index, c) ==
                         if c in newcomer.asked then Bucket(s.index, c) + [|s.subs|] else Bucket(s.index, c)
    ensures IndexInv(t)
  {
    forall c, i: nat
      ensures Holds(t.index, c, i) <==> Registered(t, c, i)
    {
      assert Holds(s.index, c, i) <==> Registered(s, c, i);
      assert Bucket(t.index, c) == if c in newcomer.asked then Bucket(s.index, c) + [|s.subs|] else Bucket(s.index, c);
    }
  }

  lemma NewcomerIsNowhere(s: State, c: Channel)
    requires IndexInv(s) && c in s.index
    ensures |s.subs| !in s.index[c]
  {
    var me: nat := |s.subs|;
    assert Holds(s.index, c, me) <==> Registered(s, c, me);
  }

  lemma SubscribeKeepsIndex(s: State, channels: seq<Channel>)
    requires IndexInv(s)
    ensures IndexInv(Apply(s, Subscribe(channels)))
  {
    var asked := Dedupe(channels);
    var me: nat := |s.subs|;
    var t := Apply(s, Subscribe(channels));
    assert NoDup(asked) by { DedupeIsDistinct(channels); }
    assert WellFormed(t.index) by {
      forall c | c in s.index
        ensures me !in s.index[c]
      {
        NewcomerIsNowhere(s, c);
      }
      RegisterKeepsWellFormed<nat>(s.index, asked, me);
    }
    RegisterBuckets<nat>(s.index, asked, me);
    RegisterNewcomer(s, t, Subscriber(asked, true, false, [], 0, |s.log|, 0));
  }

  lemma LeaveKeepsIndex(s: State, k: nat)
    requires IndexInv(s)
    ensures IndexInv(Apply(s, Leave(k)))
  {
    var t := Apply(s, Leave(k));
    if t != s {
      var i := s.closers[k].sub;
      UnregisterMembers<nat>(s.index, Unregistered(s.subs[i]), i);
      forall c, j: nat
        ensures Holds(t.index, c, j) <==> Registered(t, c, j)
      {
        assert Holds(s.index, c, j) <==> Registered(s, c, j);
      }
    }
  }

  lemma StepKeepsIndex(s: State, step: Step)
    requires IndexInv(s)
    ensures IndexInv(Apply(s, step))
  {
    match step
    case Subscribe(channels) => SubscribeKeepsIndex(s, channels);
    case Leave(k) => LeaveKeepsIndex(s, k);
    case _ =>
      var t := Apply(s, step);
      assert t.index == s.index && |t.subs| == |s.subs|;
      assert forall i: nat | i < |s.subs| :: t.subs[i].asked == s.subs[i].asked && t.subs[i].live == s.subs[i].live;
      assert forall c, i: nat :: Registered(t, c, i) == Registered(s, c, i);
  }

  lemma StepKeepsClosers(s: State, step: Step)
    requires CloserInv(s)
    ensures CloserInv(Apply(s, step))
  {
  }

  /** In every schedule, with any number of concurrent and repeated closes: no bucket is empty or repeats a
      subscriber, and a subscription is in exactly the buckets of the channels it asked for until one of its
      closers has unregistered it, and in none after that. */
  lemma {:induction false} IndexAlwaysExact(steps: seq<Step>)
    ensures IndexInv(Run(steps)) && CloserInv(Run(steps))
  {
    if steps != [] {
      IndexAlwaysExact(steps[..|steps| - 1]);
      StepKeepsIndex(Run(steps[..|steps| - 1]), steps[|steps| - 1]);
      StepKeepsClosers(Run(steps[..|steps| - 1]), steps[|steps| - 1]);
    }
  }

  lemma StepKeepsGone(s: State, step: Step, i: nat)
    requires i < |s.subs| && !s.subs[i].live
    ensures i < |Apply(s, step).subs| && !Apply(s, step).subs[i].live
  {
  }

  lemma RunSnoc(steps: seq<Step>, step: Step)
    ensures Run(steps + [step]) == Apply(Run(steps), step)
  {
    var all := steps + [step];
    assert all != [] && all[..|all| - 1] == steps && all[|all| - 1] == step;
  }

  lemma {:induction false} GoneStaysGone(before: seq<Step>, after: seq<Step>, i: nat)
    requires i < |Run(before).subs| && !Run(before).subs[i].live
    ensures i < |Run(before + after).subs| && !Run(before + after).subs[i].live
  {
    if after == [] {
      assert before + after == before;
    } else {
      var init := after[..|after| - 1];
      GoneStaysGone(before, init, i);
      AppendInTwo(before, after);
      RunSnoc(before + init, after[|after| - 1]);
      StepKeepsGone(Run(before + init), after[|after| - 1], i);
    }
  }

  /** Once a closer has unregistered a subscription, no later step puts it back into any bucket. */
  lemma {:induction false} NeverRegisteredAgain(before: seq<Step>, after: seq<Step>, i: nat)
    requires i < |Run(before).subs| && !Run(before).subs[i].live
    ensures forall c :: !Holds(Run(before + after).index, c, i)
  {
    GoneStaysGone(before, after, i);
    IndexAlwaysExact(before + after);
    var s := Run(before + after);
    forall c
      ensures !Holds(s.index, c, i)
    {
      assert Holds(s.index, c, i) <==> Registered(s, c, i);
    }
  }

  ghost function LiveChannels(s: State): set<Channel> {
    set i, c | 0 <= i < |s.subs| && s.subs[i].live && c in s.subs[i].asked :: c
  }

  /** `channel_count` is the number of distinct channels of the subscriptions still registered. */
  lemma ChannelCountIsLiveChannels(steps: seq<Step>)
    ensures |Run(steps).index| == |LiveChannels(Run(steps))|
  {
    var s := Run(steps);
    IndexAlwaysExact(steps);
    forall c
      ensures c in s.index <==> c in LiveChannels(s)
    {
      if c in s.index {
        assert Holds(s.index, c, s.index[c][0]);
        assert Registered(s, c, s.index[c][0]);
      }
      if c in LiveChannels(s) {
        var i: nat :| i < |s.subs| && s.subs[i].live && c in s.subs[i].asked;
        assert Registered(s, c, i);
        assert Holds(s.index, c, i);
      }
    }
    assert s.index.Keys == LiveChannels(s);
  }

  // ---- Deliveries under any interleaving -----------------------------------------------------------

  /** The loop of the n-th publish has passed the subscription i. */
  ghost predicate Handled(s: State, n: nat, i: nat) {
    n < |s.fanouts| && s.fanouts[n].next <= |s.fanouts[n].snapshot| && i in s.fanouts[n].snapshot[..s.fanouts[n].next]
  }

  ghost predicate PositionOk(f: Fanout) {
    f.next <= |f.snapshot| && (f.passed ==> f.next < |f.snapshot|)
  }

  ghost predicate FanoutOk(s: State, n: nat)
    requires n < |s.fanouts| && |s.log| == |s.fanouts|
  {
    var f := s.fanouts[n];
    && PositionOk(f) && NoDup(f.snapshot)
    && forall k | 0 <= k < |f.snapshot| ::
         f.snapshot[k] < |s.subs| && s.log[n].channel in s.subs[f.snapshot[k]].asked && s.subs[f.snapshot[k]].born <= n
  }

  ghost predicate SubscriberOk(s: State, i: nat)
    requires i < |s.subs|
  {
    && NoDup(s.subs[i].puts) && s.subs[i].taken <= |s.subs[i].puts|
    && (forall n | n in s.subs[i].puts :: Handled(s, n, i))
    && (!s.subs[i].closed ==> forall n: nat :: Handled(s, n, i) ==> n in s.subs[i].puts)
  }

  ghost predicate DeliveryInv(s: State) {
    && |s.log| == |s.fanouts|
    && (forall n | 0 <= n < |s.fanouts| :: FanoutOk(s, n))
    && (forall i | 0 <= i < |s.subs| :: s.subs[i].born <= |s.log| && SubscriberOk(s, i))
  }

  /** What a step must leave alone for the threads of earlier publishes to stay in order. */
  ghost predicate Extends(s: State, t: State) {
    && |s.subs| <= |t.subs| && |s.log| == |s.fanouts| <= |t.log| == |t.fanouts|
    && (forall n | 0 <= n < |s.log| :: t.log[n] == s.log[n] && t.fanouts[n].snapshot == s.fanouts[n].snapshot)
    && (forall j | 0 <= j < |s.subs| :: t.subs[j].asked == s.subs[j].asked && t.subs[j].born == s.subs[j].born)
  }

  lemma FanoutStillOk(s: State, t: State, n: nat)
    requires Extends(s, t) && n < |s.fanouts| && FanoutOk(s, n)
    requires PositionOk(t.fanouts[n])
    ensures FanoutOk(t, n)
  {
    var f := s.fanouts[n];
    forall k | 0 <= k < |f.snapshot|
      ensures f.snapshot[k] < |t.subs| && t.log[n].channel in t.subs[f.snapshot[k]].asked && t.subs[f.snapshot[k]].born <= n
    {
      assert f.snapshot[k] < |s.subs|;
    }
  }

  lemma FanoutsStillOk(s: State, t: State)
    requires Extends(s, t) && DeliveryInv(s)
    requires forall n | 0 <= n < |s.fanouts| :: t.fanouts[n] == s.fanouts[n] || PositionOk(t.fanouts[n])
    ensures forall n | 0 <= n < |s.fanouts| :: FanoutOk(t, n)
  {
    forall n | 0 <= n < |s.fanouts|
      ensures FanoutOk(t, n)
    {
      assert FanoutOk(s, n);
      FanoutStillOk(s, t, n);
    }
  }

  lemma HandledAdvance(f: Fanout, i: nat)
    requires f.next < |f.snapshot|
    ensures i in f.snapshot[..f.next + 1] <==> i in f.snapshot[..f.next] || i == f.snapshot[f.next]
  {
    assert f.snapshot[..f.next + 1] == f.snapshot[..f.next] + [f.snapshot[f.next]];
  }

  lemma BeginKeepsDelivery(s: State, channel: Channel, event: Event)
    requires DeliveryInv(s) && IndexInv(s)
    ensures DeliveryInv(Apply(s, BeginPublish(channel, event)))
  {
    var t := Apply(s, BeginPublish(channel, event));
    forall k | 0 <= k < |Bucket(s.index, channel)|
      ensures Registered(s, channel, Bucket(s.index, channel)[k])
    {
      assert Holds(s.index, channel, Bucket(s.index, channel)[k]);
    }
    FanoutsStillOk(s, t);
    assert forall n: nat, i: nat :: Handled(t, n, i) == Handled(s, n, i);
    assert forall i | 0 <= i < |t.subs| :: SubscriberOk(s, i);
  }

  lemma SubscribeKeepsDelivery(s: State, channels: seq<Channel>)
    requires DeliveryInv(s)
    ensures DeliveryInv(Apply(s, Subscribe(channels)))
  {
    var t := Apply(s, Subscribe(channels));
    FanoutsStillOk(s, t);
    assert forall n: nat, i: nat :: Handled(t, n, i) == Handled(s, n, i);
    assert forall i | 0 <= i < |s.subs| :: t.subs[i] == s.subs[i] && SubscriberOk(s, i);
    forall n: nat
      ensures !Handled(t, n, |s.subs|)
    {
      if n < |s.fanouts| { assert FanoutOk(s, n); }
    }
  }

  lemma PutKeepsDelivery(s: State, n: nat)
    requires DeliveryInv(s)
    ensures DeliveryInv(Apply(s, Put(n)))
  {
    var t := Apply(s, Put(n));
    if t != s {
      var i, f := Target(s, n), s.fanouts[n];
      assert FanoutOk(s, n);
      assert !Handled(s, n, i) by { assert i == f.snapshot[f.next]; }
      forall m: nat, j: nat
        ensures Handled(t, m, j) == (Handled(s, m, j) || (m == n && j == i))
      {
        HandledAdvance(f, j);
      }
      FanoutsStillOk(s, t);
      forall j | 0 <= j < |t.subs|
        ensures SubscriberOk(t, j)
      {
        assert SubscriberOk(s, j);
      }
    }
  }

  lemma CheckKeepsDelivery(s: State, n: nat)
    requires DeliveryInv(s)
    ensures DeliveryInv(Apply(s, CheckOpen(n)))
  {
    var t := Apply(s, CheckOpen(n));
    if t != s {
      var i, f := Target(s, n), s.fanouts[n];
      assert FanoutOk(s, n);
      forall m: nat, j: nat
        ensures Handled(t, m, j) == (Handled(s, m, j) || (m == n && j == i && s.subs[i].closed))
      {
        HandledAdvance(f, j);
      }
      FanoutsStillOk(s, t);
      assert forall j | 0 <= j < |t.subs| :: SubscriberOk(s, j);
    }
  }

  /** Closing, leaving and consuming touch no thread of a publish and no queue history. */
  lemma QuietStepKeepsDelivery(s: State, t: State)
    requires DeliveryInv(s) && t.fanouts == s.fanouts && t.log == s.log && |t.subs| == |s.subs|
    requires forall i | 0 <= i < |s.subs| ::
               && t.subs[i].puts == s.subs[i].puts && t.subs[i].asked == s.subs[i].asked && t.subs[i].born == s.subs[i].born
               && (s.subs[i].closed ==> t.subs[i].closed) && t.subs[i].taken <= |t.subs[i].puts|
    ensures DeliveryInv(t)
  {
    FanoutsStillOk(s, t);
    assert forall n: nat, i: nat :: Handled(t, n, i) == Handled(s, n, i);
    assert forall i | 0 <= i < |s.subs| :: SubscriberOk(s, i);
  }

  lemma StepKeepsDelivery(s: State, step: Step)
    requires DeliveryInv(s) && IndexInv(s)
    ensures DeliveryInv(Apply(s, step))
  {
    match step
    case Subscribe(channels) => SubscribeKeepsDelivery(s, channels);
    case BeginPublish(channel, event) => BeginKeepsDelivery(s, channel, event);
    case CheckOpen(n) => CheckKeepsDelivery(s, n);
    case Put(n) => PutKeepsDelivery(s, n);
    case Take(i) =>
      assert i < |s.subs| ==> SubscriberOk(s, i);
      assert forall j | 0 <= j < |s.subs| :: SubscriberOk(s, j);
      QuietStepKeepsDelivery(s, Apply(s, step));
    case _ =>
      assert forall j | 0 <= j < |s.subs| :: SubscriberOk(s, j);
      QuietStepKeepsDelivery(s, Apply(s, step));
  }

  lemma {:induction false} DeliveryAlways(steps: seq<Step>)
    ensures DeliveryInv(Run(steps))
  {
    if steps != [] {
      DeliveryAlways(steps[..|steps| - 1]);
      IndexAlwaysExact(steps[..|steps| - 1]);
      StepKeepsDelivery(Run(steps[..|steps| - 1]), steps[|steps| - 1]);
    }
  }

  /** In every schedule: a publish is put into one mailbox at most once, only on a channel the mailbox asked
      for, only if the mailbox was there when the publish took its snapshot; and a finished publish is in
      every mailbox of its snapshot that is still open. */
  lemma {:induction false} DeliveredExactlyOnce(steps: seq<Step>, i: nat, n: nat)
    requires i < |Run(steps).subs| && n < |Run(steps).log| == |Run(steps).fanouts|
    ensures NoDup(Run(steps).subs[i].puts)
    ensures n in Run(steps).subs[i].puts ==>
              && Run(steps).log[n].channel in Run(steps).subs[i].asked
              && i in Run(steps).fanouts[n].snapshot
    ensures Run(steps).fanouts[n].next == |Run(steps).fanouts[n].snapshot| && !Run(steps).subs[i].closed ==>
              (n in Run(steps).subs[i].puts <==> i in Run(steps).fanouts[n].snapshot)
  {
    var s := Run(steps);
    DeliveryAlways(steps);
    assert SubscriberOk(s, i) && FanoutOk(s, n);
    var f := s.fanouts[n];
    assert f.snapshot[..|f.snapshot|] == f.snapshot;
    if n in s.subs[i].puts {
      assert Handled(s, n, i);
    }
  }
}
