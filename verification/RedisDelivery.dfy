/** The Redis bus from the publisher's side: what was published is what the listeners hear, every connected worker can
    deliver it, and nothing brings back what a gap has lost. */
module RedisDelivery {
  import opened Common
  import opened BusIndex
  import opened EventBus
  import opened BusMachine
  import opened BusThreads
  import opened SerialBus
  import opened RedisBus

  // ---- From the publisher's side ---------------------------------------------------------------------------

  /** What this plugin publishes with one action. */
  function Own(a: Action): seq<Published> {
    match a
    case Publish(channel, event) => [Published(channel, event)]
    case _ => []
  }

  /** What this plugin's workers published, channel by its bare name, in order. */
  function OwnPublishes(actions: seq<Action>): seq<Published> {
    if actions == [] then [] else OwnPublishes(actions[..|actions| - 1]) + Own(actions[|actions| - 1])
  }

  /** What somebody else put into Redis does not look like this plugin's. */
  ghost predicate Ignored(prefix: string, a: Action) {
    a.Foreign? ==> !Accepts(prefix, Message(a.raw, a.payload))
  }

  ghost predicate ForeignIsIgnored(prefix: string, actions: seq<Action>) {
    forall i | 0 <= i < |actions| :: Ignored(prefix, actions[i])
  }

  lemma AsPublishedSnoc(prefix: string, log: seq<Message>, m: Message)
    ensures AsPublished(prefix, log + [m]) ==
            AsPublished(prefix, log) + if Accepts(prefix, m) then [Published(ChannelOf(prefix, m), m.payload.event)] else []
  {
    assert (log + [m])[..|log + [m]| - 1] == log;
  }

  /** The listeners of this plugin hear a publish under its own channel, whatever the prefix. */
  lemma OutgoingIsHeard(prefix: string, channel: Channel, event: Event)
    ensures var m := Outgoing(prefix, channel, event);
            Accepts(prefix, m) && ChannelOf(prefix, m) == channel && m.payload.event == event
  {
    StripPrefixUndoesPublish(prefix, channel.name);
    assert prefix <= prefix + channel.name;
  }

  lemma OneActionIsHeard(prefix: string, sys: System, a: Action)
    requires Ignored(prefix, a)
    ensures AsPublished(prefix, Act(prefix, sys, a).log) == AsPublished(prefix, sys.log) + Own(a)
  {
    match a
    case Publish(channel, event) =>
      AsPublishedSnoc(prefix, sys.log, Outgoing(prefix, channel, event));
      OutgoingIsHeard(prefix, channel, event);
    case Foreign(raw, payload) => AsPublishedSnoc(prefix, sys.log, Message(raw, payload));
    case _ =>
  }

  /** In every interleaving, what the listeners can hear of the log is, entry by entry, what was published: every
      publish, under its own channel, with its own event, and nothing else. */
  lemma {:induction false} LogIsWhatWasPublished(prefix: string, actions: seq<Action>)
    requires ForeignIsIgnored(prefix, actions)
    ensures AsPublished(prefix, RunSystem(prefix, actions).log) == OwnPublishes(actions)
  {
    if actions != [] {
      var init, a := actions[..|actions| - 1], actions[|actions| - 1];
      assert Ignored(prefix, a) && forall i | 0 <= i < |init| :: init[i] == actions[i];
      LogIsWhatWasPublished(prefix, init);
      OneActionIsHeard(prefix, RunSystem(prefix, init), a);
    }
  }

  /** The end of the matter: give an in-process bus the publishes that were made on a Redis bus, and two subscribers of
      the same channels that came in at the same point hold the same events in the same order, one on either bus. */
  lemma SamePublishesSameMailboxes(prefix: string, actions: seq<Action>, w: nat, i: nat, steps: seq<Step>, j: nat)
    requires ForeignIsIgnored(prefix, actions) && w < |RunSystem(prefix, actions).workers|
    requires var sys := RunSystem(prefix, actions);
             var k := sys.workers[w];
             && k.connected && k.since == 0 && k.mark == 0 && k.cursor == |sys.log| && Idle(k.bus)
             && i < |k.bus.subs| && !k.bus.subs[i].closed
             && Serial(steps) && Idle(Run(steps)) && Begun(steps) == OwnPublishes(actions)
             && j < |Run(steps).subs| && !Run(steps).subs[j].closed
             && Run(steps).subs[j].asked == k.bus.subs[i].asked && Run(steps).subs[j].born == k.bus.subs[i].born
    ensures var bus := RunSystem(prefix, actions).workers[w].bus;
            && Within(bus.subs[i].puts, |bus.log|) && Within(Run(steps).subs[j].puts, |Run(steps).log|)
            && EventsOf(bus.log, bus.subs[i].puts) == EventsOf(Run(steps).log, Run(steps).subs[j].puts)
  {
    LogIsWhatBegan(steps);
    LogIsWhatWasPublished(prefix, actions);
    RedisMatchesInProcess(prefix, actions, w, i, steps, j);
  }

  // ---- Nothing stands in the way of a delivery -------------------------------------------------------------

  lemma RunSystemSnoc(prefix: string, actions: seq<Action>, a: Action)
    ensures RunSystem(prefix, actions + [a]) == Act(prefix, RunSystem(prefix, actions), a)
  {
    assert (actions + [a])[..|actions + [a]| - 1] == actions;
  }

  function Locals(w: nat, steps: seq<Step>): seq<Action> {
    seq(|steps|, i requires 0 <= i < |steps| => Local(w, steps[i]))
  }

  /** The system with another local bus at worker w. */
  ghost function WithBus(sys: System, w: nat, bus: State): System
    requires w < |sys.workers|
  {
    sys.(workers := sys.workers[w := sys.workers[w].(bus := bus)])
  }

  lemma LocalStep(prefix: string, sys: System, w: nat, bus: State, step: Step)
    requires w < |sys.workers| && !step.BeginPublish?
    ensures Act(prefix, WithBus(sys, w, bus), Local(w, step)) == WithBus(sys, w, BusMachine.Apply(bus, step))
  {
  }

  lemma NoBusChange(sys: System, w: nat)
    requires w < |sys.workers|
    ensures WithBus(sys, w, sys.workers[w].bus) == sys
  {
  }

  lemma LocalsSnoc(actions: seq<Action>, w: nat, steps: seq<Step>)
    requires steps != []
    ensures actions + Locals(w, steps) ==
            actions + Locals(w, steps[..|steps| - 1]) + [Local(w, steps[|steps| - 1])]
  {
  }

  /** One worker's threads at work, the rest of the system standing still. */
  lemma {:induction false} LocalRun(prefix: string, actions: seq<Action>, w: nat, steps: seq<Step>)
    requires w < |RunSystem(prefix, actions).workers| && forall i | 0 <= i < |steps| :: !steps[i].BeginPublish?
    ensures var sys := RunSystem(prefix, actions);
            RunSystem(prefix, actions + Locals(w, steps)) == WithBus(sys, w, RunFrom(sys.workers[w].bus, steps))
  {
    var sys := RunSystem(prefix, actions);
    if steps == [] {
      assert actions + Locals(w, steps) == actions;
      NoBusChange(sys, w);
    } else {
      var init, last := steps[..|steps| - 1], steps[|steps| - 1];
      LocalRun(prefix, actions, w, init);
      LocalsSnoc(actions, w, steps);
      RunSystemSnoc(prefix, actions + Locals(w, init), Local(w, last));
      LocalStep(prefix, sys, w, RunFrom(sys.workers[w].bus, init), last);
    }
  }

  /** Worker k has become l by taking the next message of its connection to the end: one that is accepted was put at the
      end of each open mailbox of its channel, and of no other. */
  ghost predicate HandedOver(prefix: string, log: seq<Message>, k: Worker, l: Worker)
    requires k.cursor < |log|
  {
    var m, n := log[k.cursor], |k.bus.log|;
    && l.connected && Idle(l.bus) && |l.bus.subs| == |k.bus.subs|
    && l == k.(cursor := k.cursor + 1, received := l.received, bus := l.bus)
    && if Accepts(prefix, m) then
         && l.received == k.received + [k.cursor] && l.bus.log == k.bus.log + [PublishedAt(prefix, log, k.cursor)]
         && forall i | 0 <= i < |k.bus.subs| :: l.bus.subs[i] == k.bus.subs[i].(puts := k.bus.subs[i].puts +
              if !k.bus.subs[i].closed && ChannelOf(prefix, m) in k.bus.subs[i].asked then [n] else [])
       else l.received == k.received && l.bus == k.bus
  }

  /** The rest of the system as it was. */
  ghost predicate OnlyWorker(before: System, after: System, w: nat) {
    && after.log == before.log && |after.workers| == |before.workers|
    && forall v | 0 <= v < |before.workers| && v != w :: after.workers[v] == before.workers[v]
  }

  ghost predicate MayReceive(sys: System, w: nat) {
    w < |sys.workers| && CanReceive(sys.log, sys.workers[w])
  }

  lemma PublishedIsHandedOver(prefix: string, log: seq<Message>, k: Worker, bus: State)
    requires CanReceive(log, k) && Accepts(prefix, log[k.cursor])
    requires var p := PublishedAt(prefix, log, k.cursor); PublishedAlone(k.bus, bus, p.channel, p.event)
    ensures HandedOver(prefix, log, k, ReceiveNext(prefix, log, k).(bus := bus))
  {
    forall n | 0 <= n < |bus.fanouts|
      ensures Finished(bus.fanouts[n])
    {
      assert n < |k.bus.fanouts| ==> bus.fanouts[..|k.bus.fanouts|][n] == k.bus.fanouts[n];
    }
  }

  lemma FanoutToTheEnd(prefix: string, actions: seq<Action>, w: nat) returns (steps: seq<Step>)
    requires MayReceive(RunSystem(prefix, actions), w)
    requires var sys := RunSystem(prefix, actions); Accepts(prefix, sys.log[sys.workers[w].cursor])
    ensures forall i | 0 <= i < |steps| :: !steps[i].BeginPublish?
    ensures var sys := RunSystem(prefix, actions);
            var k := sys.workers[w];
            var mid := ReceiveNext(prefix, sys.log, k);
            HandedOver(prefix, sys.log, k, mid.(bus := RunFrom(mid.bus, steps)))
  {
    var sys := RunSystem(prefix, actions);
    var k := sys.workers[w];
    var p := PublishedAt(prefix, sys.log, k.cursor);
    var before := Project(prefix, actions, w);
    WorkerRefinesInProcessBus(prefix, actions, w);
    steps := PublishAlone(before, p.channel, p.event);
    RunSnoc(before, BeginPublish(p.channel, p.event));
    RunInTwo(before + [BeginPublish(p.channel, p.event)], steps);
    PublishedIsHandedOver(prefix, sys.log, k, Run(before + [BeginPublish(p.channel, p.event)] + steps));
  }

  /** A connected worker whose listener is free can always take the next message to the end, unless it is one of those
      that end the connection. */
  lemma HandOver(prefix: string, actions: seq<Action>, w: nat) returns (more: seq<Action>)
    requires MayReceive(RunSystem(prefix, actions), w)
    requires var sys := RunSystem(prefix, actions); !Kills(prefix, sys.log[sys.workers[w].cursor])
    ensures var sys, after := RunSystem(prefix, actions), RunSystem(prefix, actions + more);
            OnlyWorker(sys, after, w) && HandedOver(prefix, sys.log, sys.workers[w], after.workers[w])
  {
    var sys := RunSystem(prefix, actions);
    RunSystemSnoc(prefix, actions, Receive(w));
    if Accepts(prefix, sys.log[sys.workers[w].cursor]) {
      var steps := FanoutToTheEnd(prefix, actions, w);
      LocalRun(prefix, actions + [Receive(w)], w, steps);
      more := [Receive(w)] + Locals(w, steps);
      Regroup(actions, [Receive(w)], Locals(w, steps));
      ReceivedElsewhere(prefix, sys, w, RunFrom(ReceiveNext(prefix, sys.log, sys.workers[w]).bus, steps));
    } else {
      more := [Receive(w)];
    }
  }

  lemma ReceivedElsewhere(prefix: string, sys: System, w: nat, bus: State)
    requires MayReceive(sys, w)
    ensures var mid := Act(prefix, sys, Receive(w));
            && |mid.workers| == |sys.workers| && mid.workers[w] == ReceiveNext(prefix, sys.log, sys.workers[w])
            && OnlyWorker(sys, WithBus(mid, w, bus), w)
            && WithBus(mid, w, bus).workers[w] == ReceiveNext(prefix, sys.log, sys.workers[w]).(bus := bus)
  {
  }

  /** One of those leaves every mailbox alone, and the worker is no longer connected. */
  lemma BinaryEndsTheConnection(prefix: string, sys: System, w: nat)
    requires MayReceive(sys, w) && Kills(prefix, sys.log[sys.workers[w].cursor])
    ensures var after := Act(prefix, sys, Receive(w));
            && OnlyWorker(sys, after, w) && !after.workers[w].connected
            && after.workers[w].bus == sys.workers[w].bus && after.workers[w].received == sys.workers[w].received
  {
  }

  /** Worker k has become l by taking all that its connection had for it. */
  ghost predicate CaughtUp(log: seq<Message>, k: Worker, l: Worker) {
    && l.connected && Idle(l.bus) && l.cursor == |log|
    && l.since == k.since && l.mark == k.mark && l.past == k.past && |l.bus.subs| == |k.bus.subs|
    && forall i | 0 <= i < |k.bus.subs| :: l.bus.subs[i] == k.bus.subs[i].(puts := l.bus.subs[i].puts)
  }

  lemma OneMoreCaughtUp(prefix: string, log: seq<Message>, k: Worker, mid: Worker, l: Worker)
    requires k.cursor < |log| && HandedOver(prefix, log, k, mid) && CaughtUp(log, mid, l)
    ensures CaughtUp(log, k, l)
  {
  }

  /** It may go on until it has caught up with the log. */
  ghost predicate MayCatchUp(prefix: string, sys: System, w: nat) {
    && w < |sys.workers| && sys.workers[w].connected && Idle(sys.workers[w].bus) && sys.workers[w].cursor <= |sys.log|
    && forall p | sys.workers[w].cursor <= p < |sys.log| :: !Kills(prefix, sys.log[p])
  }

  lemma CatchingUp(prefix: string, sys: System, mid: System, w: nat)
    requires MayCatchUp(prefix, sys, w) && sys.workers[w].cursor < |sys.log|
    requires OnlyWorker(sys, mid, w) && HandedOver(prefix, sys.log, sys.workers[w], mid.workers[w])
    ensures MayCatchUp(prefix, mid, w)
  {
  }

  lemma OnlyWorkerTwice(a: System, b: System, c: System, w: nat)
    requires OnlyWorker(a, b, w) && OnlyWorker(b, c, w)
    ensures OnlyWorker(a, c, w)
  {
  }

  /** And so it can always catch up with the log, whatever the other workers do; every lemma about a worker that has
      drained the log speaks of states that any connected worker can reach. */
  lemma {:induction false} CanCatchUp(prefix: string, actions: seq<Action>, w: nat) returns (more: seq<Action>)
    requires MayCatchUp(prefix, RunSystem(prefix, actions), w)
    ensures var sys, after := RunSystem(prefix, actions), RunSystem(prefix, actions + more);
            OnlyWorker(sys, after, w) && CaughtUp(sys.log, sys.workers[w], after.workers[w])
    decreases |RunSystem(prefix, actions).log| - RunSystem(prefix, actions).workers[w].cursor
  {
    var sys := RunSystem(prefix, actions);
    if sys.workers[w].cursor == |sys.log| {
      more := [];
      assert actions + more == actions;
    } else {
      var first := HandOver(prefix, actions, w);
      var mid := RunSystem(prefix, actions + first);
      CatchingUp(prefix, sys, mid, w);
      var rest := CanCatchUp(prefix, actions + first, w);
      more := first + rest;
      Regroup(actions, first, rest);
      var after := RunSystem(prefix, actions + first + rest);
      OnlyWorkerTwice(sys, mid, after, w);
      OneMoreCaughtUp(prefix, sys.log, sys.workers[w], mid.workers[w], after.workers[w]);
    }
  }

  /** A publish made anywhere can be delivered by every worker that is connected and up to date: it is put at the end of
      exactly the worker's open mailboxes of that channel. */
  lemma PublishArrives(prefix: string, actions: seq<Action>, w: nat, channel: Channel, event: Event)
    returns (more: seq<Action>)
    requires w < |RunSystem(prefix, actions).workers|
    requires var sys := RunSystem(prefix, actions);
             sys.workers[w].connected && Idle(sys.workers[w].bus) && sys.workers[w].cursor == |sys.log|
    ensures w < |RunSystem(prefix, actions + [Publish(channel, event)] + more).workers|
    ensures var k := RunSystem(prefix, actions).workers[w];
            var l := RunSystem(prefix, actions + [Publish(channel, event)] + more).workers[w];
            && l.bus.log == k.bus.log + [Published(channel, event)] && |l.bus.subs| == |k.bus.subs|
            && forall i | 0 <= i < |k.bus.subs| :: l.bus.subs[i] == k.bus.subs[i].(puts := k.bus.subs[i].puts +
                 if !k.bus.subs[i].closed && channel in k.bus.subs[i].asked then [|k.bus.log|] else [])
  {
    RunSystemSnoc(prefix, actions, Publish(channel, event));
    OutgoingIsHeard(prefix, channel, event);
    more := HandOver(prefix, actions + [Publish(channel, event)], w);
  }

  /** One worker that has just started and connected, with one subscriber of c. */
  function OneSubscriber(c: Channel): seq<Action> {
    [StartWorker, Connect(0), Local(0, Subscribe([c]))]
  }

  lemma OneSubscriberIsThere(prefix: string, c: Channel)
    ensures RunSystem(prefix, OneSubscriber(c)) ==
            var bus := BusMachine.Apply(START, Subscribe([c]));
            System([], [Worker(bus, true, 0, 0, 0, [], [])])
  {
    var actions := OneSubscriber(c);
    assert actions[..0] == [] && actions[..1] == [StartWorker] && actions[..2] == [StartWorker, Connect(0)];
    assert actions[..2][..1] == actions[..1] && actions[..1][..0] == [];
    assert RunSystem(prefix, actions[..1]) == System([], [Worker(START, false, 0, 0, 0, [], [])]);
    assert RunSystem(prefix, actions[..2]) == System([], [Worker(START, true, 0, 0, 0, [], [])]);
  }

  /** From nothing: for every prefix, channel and event, a worker starts and connects, somebody subscribes, the event is
      published, and it is what the subscriber finds. */
  lemma FromPublisherToSubscriber(prefix: string, c: Channel, event: Event) returns (more: seq<Action>)
    ensures var sys := RunSystem(prefix, OneSubscriber(c) + [Publish(c, event)] + more);
            && |sys.workers| > 0 && |sys.workers[0].bus.subs| == 1
            && var bus := sys.workers[0].bus;
               Within(bus.subs[0].puts, |bus.log|) && EventsOf(bus.log, bus.subs[0].puts) == [event]
  {
    OneSubscriberIsThere(prefix, c);
    var sys := RunSystem(prefix, OneSubscriber(c));
    SubscribeIsExact(START, [c]);
    more := PublishArrives(prefix, OneSubscriber(c), 0, c, event);
    assert c in [c] && c in sys.workers[0].bus.subs[0].asked;
  }

  // ---- Nothing brings back what a gap has lost -------------------------------------------------------------

  /** Entry p was never handed to the worker and never will be: it is not connected, or has been since after p. */
  ghost predicate Missed(k: Worker, p: nat) {
    p !in k.received && (k.connected ==> p < k.since <= k.cursor)
  }

  lemma MissedStaysMissed(prefix: string, sys: System, a: Action, w: nat, p: nat)
    requires w < |sys.workers| && p < |sys.log| && Missed(sys.workers[w], p)
    ensures var after := Act(prefix, sys, a);
            w < |after.workers| && sys.log <= after.log && Missed(after.workers[w], p)
  {
    ActOnWorker(prefix, sys, a, w);
  }

  /** Whatever is published right after a disconnection never reaches that worker, whatever happens later. */
  lemma {:induction false} GapIsLost(prefix: string, before: seq<Action>, w: nat, channel: Channel, event: Event,
                                     after: seq<Action>)
    requires w < |RunSystem(prefix, before).workers|
    requires RunSystem(prefix, before).workers[w].connected ==> Idle(RunSystem(prefix, before).workers[w].bus)
    ensures var p := |RunSystem(prefix, before).log|;
            var sys := RunSystem(prefix, before + [Disconnect(w), Publish(channel, event)] + after);
            && p < |sys.log| && sys.log[p] == Outgoing(prefix, channel, event)
            && w < |sys.workers| && Missed(sys.workers[w], p)
    decreases |after|
  {
    var gap := before + [Disconnect(w), Publish(channel, event)];
    if after == [] {
      assert gap + after == before + [Disconnect(w)] + [Publish(channel, event)];
      RunSystemSnoc(prefix, before, Disconnect(w));
      RunSystemSnoc(prefix, before + [Disconnect(w)], Publish(channel, event));
      WorkerFollowsTheLog(prefix, before, w);
      var sys := RunSystem(prefix, before);
      var k := sys.workers[w];
      forall n | 0 <= n < |k.received|
        ensures k.received[n] != |sys.log|
      {
        assert ReceivedOk(prefix, sys.log, k, n);
      }
    } else {
      var init, last := after[..|after| - 1], after[|after| - 1];
      GapIsLost(prefix, before, w, channel, event, init);
      assert gap + after == gap + init + [last];
      RunSystemSnoc(prefix, gap + init, last);
      MissedStaysMissed(prefix, RunSystem(prefix, gap + init), last, w, |RunSystem(prefix, before).log|);
    }
  }
}
