/** The cross-worker bus: a shared Redis publish log, and workers that each bridge what their one listener
    connection receives into their own local index. */
module RedisBus {
  import opened Common
  import opened BusIndex
  import opened EventBus
  import opened BusMachine
  import opened SerialBus

  /** What a Redis publish carries: this plugin's JSON, text that does not parse, or bytes that are not even UTF-8,
      which raise out of the listener's inner loop and cost it its connection. */
  datatype Payload = Json(event: Event) | Malformed | Binary

  datatype Message = Message(raw: string, payload: Payload)

  /** One worker process. `cursor` is the next log position its connection will hand over; `since` and `mark`
      are history: the log length, and the number of fan-outs so far, when the current connection was made.
      `received[n]` is the log position of the worker's n-th fan-out, and `past` are the stretches of the log that
      earlier connections handed over. */
  datatype Worker = Worker(
    bus: State, connected: bool, cursor: nat, since: nat, mark: nat, received: seq<nat>, past: seq<Span>)

  /** The log positions from `from` up to but not at `to`. */
  datatype Span = Span(from: nat, to: nat)

  datatype System = System(log: seq<Message>, workers: seq<Worker>)

  datatype Action =
    | StartWorker
    | Publish(channel: Channel, event: Event)
    | Foreign(raw: string, payload: Payload)
    | Connect(w: nat)
    | Disconnect(w: nat)
    | Receive(w: nat)
    | Local(w: nat, step: Step)

  /** What a worker publishes in Redis. */
  function Outgoing(prefix: string, channel: Channel, event: Event): Message {
    Message(prefix + channel.name, Json(event))
  }

  /** `_strip_prefix` */
  function StripPrefix(prefix: string, raw: string): string {
    if prefix <= raw then raw[|prefix|..] else raw
  }

  /** The pattern subscription passes it and its payload parses. */
  predicate Accepts(prefix: string, m: Message) {
    prefix <= m.raw && m.payload.Json?
  }

  function ChannelOf(prefix: string, m: Message): Channel {
    Channel(StripPrefix(prefix, m.raw))
  }

  /** The pattern subscription passes it and it kills the connection. */
  predicate Kills(prefix: string, m: Message) {
    prefix <= m.raw && m.payload.Binary?
  }

  /** A new connection hands over what is published from now on. */
  function Connected(k: Worker, now: nat): Worker {
    k.(connected := true, cursor := now, since := now, mark := |k.received|)
  }

  function Dropped(k: Worker): Worker {
    k.(connected := false, past := k.past + [Span(k.since, k.cursor)])
  }

  /** A worker's listener takes the next message of its connection; the fan-out it starts is the local publish. */
  function ReceiveNext(prefix: string, log: seq<Message>, k: Worker): Worker
    requires k.cursor < |log|
  {
    var m := log[k.cursor];
    if Accepts(prefix, m) then
      k.(cursor := k.cursor + 1, received := k.received + [k.cursor],
         bus := BusMachine.Apply(k.bus, BeginPublish(ChannelOf(prefix, m), m.payload.event)))
    else if Kills(prefix, m) then Dropped(k.(cursor := k.cursor + 1))
    else k.(cursor := k.cursor + 1)
  }

  /** The listener is one thread: it takes the next message only when it is done fanning out the last. */
  ghost predicate CanReceive(log: seq<Message>, k: Worker) {
    k.connected && k.cursor < |log| && Idle(k.bus)
  }

  ghost function Act(prefix: string, sys: System, a: Action): System {
    match a
    case StartWorker => sys.(workers := sys.workers + [Worker(START, false, 0, 0, 0, [], [])])
    case Publish(channel, event) => sys.(log := sys.log + [Outgoing(prefix, channel, event)])
    case Foreign(raw, payload) => sys.(log := sys.log + [Message(raw, payload)])
    case Connect(w) =>
      if w < |sys.workers| && !sys.workers[w].connected then
        sys.(workers := sys.workers[w := Connected(sys.workers[w], |sys.log|)])
      else sys
    case Disconnect(w) =>
      if w < |sys.workers| && sys.workers[w].connected && Idle(sys.workers[w].bus) then
        sys.(workers := sys.workers[w := Dropped(sys.workers[w])])
      else sys
    case Receive(w) =>
      if w < |sys.workers| && CanReceive(sys.log, sys.workers[w]) then
        sys.(workers := sys.workers[w := ReceiveNext(prefix, sys.log, sys.workers[w])])
      else sys
    case Local(w, step) =>
      if w < |sys.workers| && !step.BeginPublish? then
        sys.(workers := sys.workers[w := sys.workers[w].(bus := BusMachine.Apply(sys.workers[w].bus, step))])
      else sys
  }

  ghost function RunSystem(prefix: string, actions: seq<Action>): System {
    if actions == [] then System([], [])
    else Act(prefix, RunSystem(prefix, actions[..|actions| - 1]), actions[|actions| - 1])
  }

  /** Publishing prepends exactly what the listener cuts off, whatever the channel. */
  lemma StripPrefixUndoesPublish(prefix: string, c: string)
    ensures StripPrefix(prefix, prefix + c) == c
  {
    assert prefix <= prefix + c;
  }

  // ---- Refinement ------------------------------------------------------------------------------------

  /** The steps of worker w, with every fan-out written as an in-process publish. */
  ghost function Project(prefix: string, actions: seq<Action>, w: nat): seq<Step> {
    if actions == [] then []
    else
      var init := actions[..|actions| - 1];
      var sys := RunSystem(prefix, init);
      Project(prefix, init, w) + StepsOf(prefix, sys, actions[|actions| - 1], w)
  }

  ghost function StepsOf(prefix: string, sys: System, a: Action, w: nat): seq<Step> {
    if a.Local? && a.w == w && w < |sys.workers| && !a.step.BeginPublish? then [a.step]
    else if a.Receive? && a.w == w && w < |sys.workers| && CanReceive(sys.log, sys.workers[w]) &&
            Accepts(prefix, sys.log[sys.workers[w].cursor])
    then
      var m := sys.log[sys.workers[w].cursor];
      [BeginPublish(ChannelOf(prefix, m), m.payload.event)]
    else []
  }

  lemma RunExtends(steps: seq<Step>, more: seq<Step>)
    requires |more| <= 1
    ensures Run(steps + more) == if more == [] then Run(steps) else BusMachine.Apply(Run(steps), more[0])
  {
    if more == [] {
      assert steps + more == steps;
    } else {
      assert (steps + more)[..|steps + more| - 1] == steps;
    }
  }

  lemma SerialExtends(steps: seq<Step>, more: seq<Step>)
    requires |more| <= 1 && Serial(steps)
    requires more != [] && more[0].BeginPublish? ==> Idle(Run(steps))
    ensures Serial(steps + more)
  {
    if more == [] {
      assert steps + more == steps;
    } else {
      assert (steps + more)[..|steps + more| - 1] == steps;
    }
  }

  lemma StepsOfIsTheBusChange(prefix: string, sys: System, a: Action, w: nat)
    requires w < |sys.workers|
    ensures w < |Act(prefix, sys, a).workers| && |StepsOf(prefix, sys, a, w)| <= 1
    ensures Act(prefix, sys, a).workers[w].bus ==
            if StepsOf(prefix, sys, a, w) == [] then sys.workers[w].bus
            else BusMachine.Apply(sys.workers[w].bus, StepsOf(prefix, sys, a, w)[0])
    ensures StepsOf(prefix, sys, a, w) != [] && StepsOf(prefix, sys, a, w)[0].BeginPublish? ==> Idle(sys.workers[w].bus)
  {
  }

  lemma RefinementSurvivesAction(prefix: string, sys: System, a: Action, w: nat, steps: seq<Step>)
    requires w < |sys.workers| && sys.workers[w].bus == Run(steps) && Serial(steps)
    ensures w < |Act(prefix, sys, a).workers|
    ensures Act(prefix, sys, a).workers[w].bus == Run(steps + StepsOf(prefix, sys, a, w))
    ensures Serial(steps + StepsOf(prefix, sys, a, w))
  {
    StepsOfIsTheBusChange(prefix, sys, a, w);
    RunExtends(steps, StepsOf(prefix, sys, a, w));
    SerialExtends(steps, StepsOf(prefix, sys, a, w));
  }

  lemma NewWorkerIsFresh(prefix: string, sys: System, a: Action, w: nat)
    requires |sys.workers| <= w < |Act(prefix, sys, a).workers|
    ensures Act(prefix, sys, a).workers[w].bus == START && StepsOf(prefix, sys, a, w) == []
  {
  }

  /** In every interleaving of any number of workers, each worker's local bus is an in-process bus that
      published, one after the other, exactly at the worker's fan-out points. */
  lemma {:induction false} WorkerRefinesInProcessBus(prefix: string, actions: seq<Action>, w: nat)
    requires w < |RunSystem(prefix, actions).workers|
    ensures RunSystem(prefix, actions).workers[w].bus == Run(Project(prefix, actions, w))
    ensures Serial(Project(prefix, actions, w))
  {
    var init, a := actions[..|actions| - 1], actions[|actions| - 1];
    var sys := RunSystem(prefix, init);
    if w < |sys.workers| {
      WorkerRefinesInProcessBus(prefix, init, w);
      RefinementSurvivesAction(prefix, sys, a, w, Project(prefix, init, w));
    } else {
      UnbornWorkerHasNoSteps(prefix, init, w);
      NewWorkerIsFresh(prefix, sys, a, w);
      assert Project(prefix, actions, w) == [];
    }
  }

  lemma {:induction false} UnbornWorkerHasNoSteps(prefix: string, actions: seq<Action>, w: nat)
    requires w >= |RunSystem(prefix, actions).workers|
    ensures Project(prefix, actions, w) == []
  {
    if actions != [] {
      UnbornWorkerHasNoSteps(prefix, actions[..|actions| - 1], w);
    }
  }

  // ---- What a worker receives ---------------------------------------------------------------------------

  /** The log positions from `from` to `to` that a connected worker fans out. */
  function Matching(prefix: string, log: seq<Message>, from: nat, to: nat): seq<nat>
    requires from <= to <= |log|
  {
    if from == to then []
    else if Accepts(prefix, log[to - 1]) then Matching(prefix, log, from, to - 1) + [to - 1]
    else Matching(prefix, log, from, to - 1)
  }

  lemma {:induction false} MatchingLogGrows(prefix: string, log: seq<Message>, m: Message, from: nat, to: nat)
    requires from <= to <= |log|
    ensures Matching(prefix, log + [m], from, to) == Matching(prefix, log, from, to)
  {
    if from < to {
      MatchingLogGrows(prefix, log, m, from, to - 1);
    }
  }

  function PublishedAt(prefix: string, log: seq<Message>, k: nat): Published
    requires k < |log| && Accepts(prefix, log[k])
  {
    Published(ChannelOf(prefix, log[k]), log[k].payload.event)
  }

  ghost predicate Ascending(s: seq<nat>) {
    forall i, j :: 0 <= i < j < |s| ==> s[i] < s[j]
  }

  ghost predicate ReceivedOk(prefix: string, log: seq<Message>, k: Worker, n: nat)
    requires n < |k.received| == |k.bus.log|
  {
    && k.received[n] < k.cursor <= |log|
    && Accepts(prefix, log[k.received[n]])
    && k.bus.log[n] == PublishedAt(prefix, log, k.received[n])
  }

  ghost predicate WorkerInv(prefix: string, log: seq<Message>, k: Worker) {
    && k.cursor <= |log| && |k.received| == |k.bus.log| && Ascending(k.received)
    && (forall n | 0 <= n < |k.received| :: ReceivedOk(prefix, log, k, n))
    && (k.connected ==>
          && k.since <= k.cursor && k.mark <= |k.received|
          && k.received[k.mark..] == Matching(prefix, log, k.since, k.cursor))
  }

  lemma LogGrowthKeepsWorker(prefix: string, log: seq<Message>, m: Message, k: Worker)
    requires WorkerInv(prefix, log, k)
    ensures WorkerInv(prefix, log + [m], k)
  {
    forall n | 0 <= n < |k.received|
      ensures ReceivedOk(prefix, log + [m], k, n)
    {
      assert ReceivedOk(prefix, log, k, n);
    }
    if k.connected {
      MatchingLogGrows(prefix, log, m, k.since, k.cursor);
    }
  }

  lemma ReceiveKeepsWorker(prefix: string, log: seq<Message>, k: Worker)
    requires WorkerInv(prefix, log, k) && k.connected && k.cursor < |log|
    ensures WorkerInv(prefix, log, ReceiveNext(prefix, log, k))
  {
    var t := ReceiveNext(prefix, log, k);
    if t.received != k.received {
      assert t.received[t.mark..] == k.received[k.mark..] + [k.cursor];
    }
    forall n | 0 <= n < |t.received|
      ensures ReceivedOk(prefix, log, t, n)
    {
      if n < |k.received| {
        assert ReceivedOk(prefix, log, k, n);
      }
    }
    forall i, j | 0 <= i < j < |t.received|
      ensures t.received[i] < t.received[j]
    {
      assert ReceivedOk(prefix, log, k, i);
    }
  }

  lemma ConnectKeepsWorker(prefix: string, log: seq<Message>, k: Worker)
    requires WorkerInv(prefix, log, k)
    ensures WorkerInv(prefix, log, Connected(k, |log|))
  {
    var t := Connected(k, |log|);
    forall n | 0 <= n < |t.received|
      ensures ReceivedOk(prefix, log, t, n)
    {
      assert ReceivedOk(prefix, log, k, n);
    }
  }

  lemma LocalKeepsWorker(prefix: string, log: seq<Message>, k: Worker, step: Step)
    requires WorkerInv(prefix, log, k) && !step.BeginPublish?
    ensures WorkerInv(prefix, log, k.(bus := BusMachine.Apply(k.bus, step)))
  {
    var t := k.(bus := BusMachine.Apply(k.bus, step));
    assert t.bus.log == k.bus.log;
    forall n | 0 <= n < |t.received|
      ensures ReceivedOk(prefix, log, t, n)
    {
      assert ReceivedOk(prefix, log, k, n);
    }
  }

  lemma ActionKeepsWorker(prefix: string, sys: System, a: Action, w: nat)
    requires w < |sys.workers| && WorkerInv(prefix, sys.log, sys.workers[w])
    ensures w < |Act(prefix, sys, a).workers|
    ensures WorkerInv(prefix, Act(prefix, sys, a).log, Act(prefix, sys, a).workers[w])
  {
    var k := sys.workers[w];
    match a
    case Publish(channel, event) => LogGrowthKeepsWorker(prefix, sys.log, Outgoing(prefix, channel, event), k);
    case Foreign(raw, payload) => LogGrowthKeepsWorker(prefix, sys.log, Message(raw, payload), k);
    case Connect(v) => ConnectKeepsWorker(prefix, sys.log, k);
    case Receive(v) => if k.connected && k.cursor < |sys.log| { ReceiveKeepsWorker(prefix, sys.log, k); }
    case Local(v, step) => if !step.BeginPublish? { LocalKeepsWorker(prefix, sys.log, k, step); }
    case Disconnect(v) =>
      forall n | 0 <= n < |k.received|
        ensures ReceivedOk(prefix, sys.log, Dropped(k), n)
      {
        assert ReceivedOk(prefix, sys.log, k, n);
      }
    case StartWorker =>
  }

  /** In every interleaving: a worker fans out log entries at most once, in publish order, each under the
      channel it was published on; and since its current connection was made it has skipped none. */
  lemma {:induction false} WorkerFollowsTheLog(prefix: string, actions: seq<Action>, w: nat)
    requires w < |RunSystem(prefix, actions).workers|
    ensures WorkerInv(prefix, RunSystem(prefix, actions).log, RunSystem(prefix, actions).workers[w])
  {
    var init := actions[..|actions| - 1];
    var sys := RunSystem(prefix, init);
    if w < |sys.workers| {
      WorkerFollowsTheLog(prefix, init, w);
      ActionKeepsWorker(prefix, sys, actions[|actions| - 1], w);
    }
  }

  // ---- What disconnections cost ----------------------------------------------------------------------------

  ghost predicate SpansOk(log: seq<Message>, k: Worker) {
    && (forall i | 0 <= i < |k.past| :: k.past[i].from <= k.past[i].to <= |log|)
    && (forall i, j | 0 <= i < j < |k.past| :: k.past[i].to <= k.past[j].from)
    && (k.connected ==> k.since <= k.cursor <= |log| && forall i | 0 <= i < |k.past| :: k.past[i].to <= k.since)
  }

  /** What a worker fans out over the given stretches of the log. */
  function Over(prefix: string, log: seq<Message>, spans: seq<Span>): seq<nat>
    requires forall i | 0 <= i < |spans| :: spans[i].from <= spans[i].to <= |log|
  {
    if spans == [] then []
    else
      var n := |spans| - 1;
      Over(prefix, log, spans[..n]) + Matching(prefix, log, spans[n].from, spans[n].to)
  }

  /** The fan-outs are the accepted entries of the connected stretches, one stretch after the other. */
  ghost predicate PastInv(prefix: string, log: seq<Message>, k: Worker) {
    && SpansOk(log, k)
    && k.received == Over(prefix, log, k.past) + if k.connected then Matching(prefix, log, k.since, k.cursor) else []
  }

  lemma {:induction false} OverLogGrows(prefix: string, log: seq<Message>, m: Message, spans: seq<Span>)
    requires forall i | 0 <= i < |spans| :: spans[i].from <= spans[i].to <= |log|
    ensures Over(prefix, log + [m], spans) == Over(prefix, log, spans)
  {
    if spans != [] {
      var n := |spans| - 1;
      OverLogGrows(prefix, log, m, spans[..n]);
      MatchingLogGrows(prefix, log, m, spans[n].from, spans[n].to);
    }
  }

  lemma LogGrowthKeepsPast(prefix: string, log: seq<Message>, m: Message, k: Worker)
    requires PastInv(prefix, log, k)
    ensures PastInv(prefix, log + [m], k)
  {
    OverLogGrows(prefix, log, m, k.past);
    if k.connected {
      MatchingLogGrows(prefix, log, m, k.since, k.cursor);
    }
  }

  lemma DropKeepsPast(prefix: string, log: seq<Message>, k: Worker)
    requires PastInv(prefix, log, k) && k.connected
    ensures PastInv(prefix, log, Dropped(k))
  {
    assert Dropped(k).past[..|k.past|] == k.past;
    assert k.received + [] == k.received;
  }

  lemma BusDoesNotMatter(prefix: string, log: seq<Message>, k: Worker, bus: State)
    requires PastInv(prefix, log, k)
    ensures PastInv(prefix, log, k.(bus := bus))
  {
  }

  lemma FanOutKeepsPast(prefix: string, log: seq<Message>, k: Worker)
    requires PastInv(prefix, log, k) && k.connected && k.cursor < |log| && Accepts(prefix, log[k.cursor])
    ensures PastInv(prefix, log, k.(cursor := k.cursor + 1, received := k.received + [k.cursor]))
  {
    Regroup(Over(prefix, log, k.past), Matching(prefix, log, k.since, k.cursor), [k.cursor]);
  }

  lemma SkipKeepsPast(prefix: string, log: seq<Message>, k: Worker)
    requires PastInv(prefix, log, k) && k.connected && k.cursor < |log| && !Accepts(prefix, log[k.cursor])
    ensures PastInv(prefix, log, k.(cursor := k.cursor + 1))
  {
  }

  lemma ReceiveKeepsPast(prefix: string, log: seq<Message>, k: Worker)
    requires PastInv(prefix, log, k) && k.connected && k.cursor < |log|
    ensures PastInv(prefix, log, ReceiveNext(prefix, log, k))
  {
    if Accepts(prefix, log[k.cursor]) {
      FanOutKeepsPast(prefix, log, k);
      BusDoesNotMatter(prefix, log, k.(cursor := k.cursor + 1, received := k.received + [k.cursor]),
                       ReceiveNext(prefix, log, k).bus);
    } else {
      SkipKeepsPast(prefix, log, k);
      if Kills(prefix, log[k.cursor]) {
        DropKeepsPast(prefix, log, k.(cursor := k.cursor + 1));
      }
    }
  }

  lemma ConnectKeepsPast(prefix: string, log: seq<Message>, k: Worker)
    requires PastInv(prefix, log, k) && !k.connected
    ensures PastInv(prefix, log, Connected(k, |log|))
  {
  }

  /** What one action can do to a worker, as far as its connections go. */
  lemma ActOnWorker(prefix: string, sys: System, a: Action, w: nat)
    requires w < |sys.workers|
    ensures var after, k := Act(prefix, sys, a), sys.workers[w];
            && w < |after.workers|
            && var t := after.workers[w];
               || (t == k && (after.log == sys.log || exists m :: after.log == sys.log + [m]))
               || (after.log == sys.log &&
                   (|| (k.connected && t == Dropped(k))
                    || (!k.connected && t == Connected(k, |sys.log|))
                    || (k.connected && k.cursor < |sys.log| && t == ReceiveNext(prefix, sys.log, k))
                    || t == k.(bus := t.bus)))
  {
    match a
    case Publish(channel, event) =>
      assert Act(prefix, sys, a).log == sys.log + [Outgoing(prefix, channel, event)];
    case Foreign(raw, payload) => assert Act(prefix, sys, a).log == sys.log + [Message(raw, payload)];
    case _ =>
  }

  lemma ActionKeepsPast(prefix: string, sys: System, a: Action, w: nat)
    requires w < |sys.workers| && PastInv(prefix, sys.log, sys.workers[w])
    ensures w < |Act(prefix, sys, a).workers|
    ensures PastInv(prefix, Act(prefix, sys, a).log, Act(prefix, sys, a).workers[w])
  {
    var after, k := Act(prefix, sys, a), sys.workers[w];
    ActOnWorker(prefix, sys, a, w);
    var t := after.workers[w];
    WorkerChangeKeepsPast(prefix, sys.log, after.log, k, t);
  }

  lemma WorkerChangeKeepsPast(prefix: string, log: seq<Message>, log': seq<Message>, k: Worker, t: Worker)
    requires PastInv(prefix, log, k)
    requires || (t == k && (log' == log || exists m :: log' == log + [m]))
             || (log' == log &&
                 (|| (k.connected && t == Dropped(k))
                  || (!k.connected && t == Connected(k, |log|))
                  || (k.connected && k.cursor < |log| && t == ReceiveNext(prefix, log, k))
                  || t == k.(bus := t.bus)))
    ensures PastInv(prefix, log', t)
  {
    if t == k {
      if log' != log {
        var m :| log' == log + [m];
        LogGrowthKeepsPast(prefix, log, m, k);
      }
    } else if k.connected && t == Dropped(k) {
      DropKeepsPast(prefix, log, k);
    } else if !k.connected && t == Connected(k, |log|) {
      ConnectKeepsPast(prefix, log, k);
    } else if k.connected && k.cursor < |log| && t == ReceiveNext(prefix, log, k) {
      ReceiveKeepsPast(prefix, log, k);
    } else {
      BusDoesNotMatter(prefix, log, k, t.bus);
    }
  }

  lemma {:induction false} PastAlways(prefix: string, actions: seq<Action>, w: nat)
    requires w < |RunSystem(prefix, actions).workers|
    ensures PastInv(prefix, RunSystem(prefix, actions).log, RunSystem(prefix, actions).workers[w])
  {
    var init := actions[..|actions| - 1];
    var sys := RunSystem(prefix, init);
    if w < |sys.workers| {
      PastAlways(prefix, init, w);
      ActionKeepsPast(prefix, sys, actions[|actions| - 1], w);
    }
  }

  lemma {:induction false} MatchingMembers(prefix: string, log: seq<Message>, from: nat, to: nat)
    requires from <= to <= |log|
    ensures forall p :: p in Matching(prefix, log, from, to) <==> from <= p < to && Accepts(prefix, log[p])
  {
    if from < to {
      MatchingMembers(prefix, log, from, to - 1);
    }
  }

  ghost predicate Covered(spans: seq<Span>, p: nat) {
    exists i :: 0 <= i < |spans| && spans[i].from <= p < spans[i].to
  }

  lemma {:induction false} OverMembers(prefix: string, log: seq<Message>, spans: seq<Span>, p: nat)
    requires (forall i | 0 <= i < |spans| :: spans[i].from <= spans[i].to <= |log|) && p < |log|
    ensures p in Over(prefix, log, spans) <==> Covered(spans, p) && Accepts(prefix, log[p])
  {
    if spans != [] {
      var n := |spans| - 1;
      OverMembers(prefix, log, spans[..n], p);
      MatchingMembers(prefix, log, spans[n].from, spans[n].to);
      assert Covered(spans, p) <==> Covered(spans[..n], p) || spans[n].from <= p < spans[n].to by {
        assert forall i | 0 <= i < n :: spans[..n][i] == spans[i];
      }
    }
  }

  /** In every interleaving, a log entry reaches a worker's fan-out exactly when it is this plugin's and was handed over
      while one of the worker's connections was up; what was published in a gap is lost to it for good. */
  lemma OnlyTheGapsAreLost(prefix: string, actions: seq<Action>, w: nat, p: nat)
    requires w < |RunSystem(prefix, actions).workers| && p < |RunSystem(prefix, actions).log|
    ensures var sys := RunSystem(prefix, actions);
            var k := sys.workers[w];
            p in k.received <==>
              Accepts(prefix, sys.log[p]) && (Covered(k.past, p) || (k.connected && k.since <= p < k.cursor))
  {
    var sys := RunSystem(prefix, actions);
    var k := sys.workers[w];
    PastAlways(prefix, actions, w);
    OverMembers(prefix, sys.log, k.past, p);
    if k.connected {
      MatchingMembers(prefix, sys.log, k.since, k.cursor);
    }
  }

  ghost predicate Within(s: seq<nat>, bound: nat) {
    forall j | 0 <= j < |s| :: s[j] < bound
  }

  /** The log positions behind a list of fan-out numbers. */
  function Positions(received: seq<nat>, ns: seq<nat>): seq<nat>
    requires Within(ns, |received|)
  {
    seq(|ns|, i requires 0 <= i < |ns| => received[ns[i]])
  }

  /** Those of the given log positions whose channel is in `asked`. */
  function OnChannels(prefix: string, log: seq<Message>, asked: seq<Channel>, positions: seq<nat>): seq<nat>
    requires Within(positions, |log|)
  {
    if positions == [] then []
    else
      var n := |positions| - 1;
      assert positions[n] < |log|;
      var init := OnChannels(prefix, log, asked, positions[..n]);
      if ChannelOf(prefix, log[positions[n]]) in asked then init + [positions[n]] else init
  }

  /** Each fan-out was published under the channel of its log entry. */
  ghost predicate Tied(prefix: string, log: seq<Message>, bus: seq<Published>, received: seq<nat>) {
    && |received| == |bus|
    && forall n | 0 <= n < |received| :: received[n] < |log| && bus[n].channel == ChannelOf(prefix, log[received[n]])
  }

  lemma WorkerIsTied(prefix: string, log: seq<Message>, k: Worker)
    requires WorkerInv(prefix, log, k)
    ensures Tied(prefix, log, k.bus.log, k.received)
  {
    forall n | 0 <= n < |k.received|
      ensures k.received[n] < |log| && k.bus.log[n].channel == ChannelOf(prefix, log[k.received[n]])
    {
      assert ReceivedOk(prefix, log, k, n);
    }
  }

  lemma PositionsAreWithin(prefix: string, log: seq<Message>, bus: seq<Published>, received: seq<nat>,
                           asked: seq<Channel>, from: nat, to: nat)
    requires Tied(prefix, log, bus, received) && from <= to <= |received|
    ensures Within(Wanted(bus, asked, from, to), |received|) && Within(received[from..to], |log|)
  {
    WantedIsExact(bus, asked, from, to);
    var wanted := Wanted(bus, asked, from, to);
    assert forall j | 0 <= j < |wanted| :: wanted[j] in wanted;
  }

  lemma PositionsSnoc(received: seq<nat>, ns: seq<nat>, n: nat)
    requires Within(ns, |received|) && n < |received|
    ensures Within(ns + [n], |received|) && Positions(received, ns + [n]) == Positions(received, ns) + [received[n]]
  {
  }

  lemma OnChannelsSnoc(prefix: string, log: seq<Message>, asked: seq<Channel>, ps: seq<nat>, p: nat)
    requires Within(ps, |log|) && p < |log|
    ensures Within(ps + [p], |log|)
    ensures OnChannels(prefix, log, asked, ps + [p]) ==
            OnChannels(prefix, log, asked, ps) + if ChannelOf(prefix, log[p]) in asked then [p] else []
  {
    assert (ps + [p])[..|ps + [p]| - 1] == ps;
  }

  lemma SliceSnoc(received: seq<nat>, from: nat, to: nat)
    requires from < to <= |received|
    ensures received[from..to] == received[from..to - 1] + [received[to - 1]]
  {
  }

  /** The fan-outs that concern a subscription sit where the log has entries on its channels. */
  lemma {:induction false} WantedPositions(prefix: string, log: seq<Message>, bus: seq<Published>, received: seq<nat>,
                                           asked: seq<Channel>, from: nat, to: nat)
    requires Tied(prefix, log, bus, received) && from <= to <= |received|
    ensures Within(Wanted(bus, asked, from, to), |received|) && Within(received[from..to], |log|)
    ensures Positions(received, Wanted(bus, asked, from, to)) == OnChannels(prefix, log, asked, received[from..to])
  {
    PositionsAreWithin(prefix, log, bus, received, asked, from, to);
    if from < to {
      WantedPositions(prefix, log, bus, received, asked, from, to - 1);
      PositionsSnoc(received, Wanted(bus, asked, from, to - 1), to - 1);
      OnChannelsSnoc(prefix, log, asked, received[from..to - 1], received[to - 1]);
      SliceSnoc(received, from, to);
    }
  }

  /** The queue history of u is exactly the log entries on its channels that its worker's current connection
      handed over after the `born - mark` already fanned out when it subscribed. */
  ghost predicate GotTheLog(prefix: string, log: seq<Message>, k: Worker, u: Subscriber)
    requires k.since <= k.cursor <= |log|
  {
    var arrived := Matching(prefix, log, k.since, k.cursor);
    && k.mark <= u.born && u.born - k.mark <= |arrived|
    && Within(u.puts, |k.received|) && Within(arrived[u.born - k.mark..], |log|)
    && Positions(k.received, u.puts) == OnChannels(prefix, log, u.asked, arrived[u.born - k.mark..])
  }

  lemma WantedIsGotTheLog(prefix: string, log: seq<Message>, k: Worker, u: Subscriber)
    requires WorkerInv(prefix, log, k) && k.connected && k.mark <= u.born <= |k.received|
    requires u.puts == Wanted(k.bus.log, u.asked, u.born, |k.bus.log|)
    ensures GotTheLog(prefix, log, k, u)
  {
    WorkerIsTied(prefix, log, k);
    WantedPositions(prefix, log, k.bus.log, k.received, u.asked, u.born, |k.received|);
    assert k.received[u.born..|k.received|] == k.received[k.mark..][u.born - k.mark..];
  }

  /** End to end: an open subscription on a worker whose connection has held since before it subscribed got
      exactly the log entries of its channels from then on, in log order. */
  lemma {:induction false} MailboxIsTheRedisLog(prefix: string, actions: seq<Action>, w: nat, i: nat)
    requires w < |RunSystem(prefix, actions).workers|
    requires var k := RunSystem(prefix, actions).workers[w];
             && k.connected && Idle(k.bus) && i < |k.bus.subs| && !k.bus.subs[i].closed && k.mark <= k.bus.subs[i].born
    ensures var sys := RunSystem(prefix, actions);
            var k := sys.workers[w];
            k.since <= k.cursor <= |sys.log| && GotTheLog(prefix, sys.log, k, k.bus.subs[i])
  {
    WorkerFollowsTheLog(prefix, actions, w);
    WorkerRefinesInProcessBus(prefix, actions, w);
    OpenMailboxIsTheLog(Project(prefix, actions, w), i);
    var sys := RunSystem(prefix, actions);
    WantedIsGotTheLog(prefix, sys.log, sys.workers[w], sys.workers[w].bus.subs[i]);
  }

  // ---- Redis bus against in-process bus --------------------------------------------------------------

  function EventsOf(log: seq<Published>, ns: seq<nat>): seq<Event>
    requires Within(ns, |log|)
  {
    seq(|ns|, i requires 0 <= i < |ns| => log[ns[i]].event)
  }

  /** What an in-process bus would have been asked to publish for the accepted part of a Redis log. */
  function AsPublished(prefix: string, log: seq<Message>): seq<Published> {
    if log == [] then []
    else
      var n := |log| - 1;
      if Accepts(prefix, log[n]) then AsPublished(prefix, log[..n]) + [PublishedAt(prefix, log, n)]
      else AsPublished(prefix, log[..n])
  }

  lemma {:induction false} MatchingIsAsPublished(prefix: string, log: seq<Message>, to: nat)
    requires to <= |log|
    ensures |AsPublished(prefix, log[..to])| == |Matching(prefix, log, 0, to)|
    ensures forall n | 0 <= n < |Matching(prefix, log, 0, to)| ::
              var p := Matching(prefix, log, 0, to)[n];
              && p < |log| && Accepts(prefix, log[p])
              && AsPublished(prefix, log[..to])[n] == PublishedAt(prefix, log, p)
  {
    if to > 0 {
      MatchingIsAsPublished(prefix, log, to - 1);
      assert log[..to][..to - 1] == log[..to - 1];
    }
  }

  /** A worker connected from the start that has drained the log has the in-process bus's publish history. */
  lemma DrainedWorkerLog(prefix: string, actions: seq<Action>, w: nat)
    requires w < |RunSystem(prefix, actions).workers|
    requires var k := RunSystem(prefix, actions).workers[w];
             k.connected && k.since == 0 && k.mark == 0 && k.cursor == |RunSystem(prefix, actions).log|
    ensures RunSystem(prefix, actions).workers[w].bus.log == AsPublished(prefix, RunSystem(prefix, actions).log)
  {
    var sys := RunSystem(prefix, actions);
    var k := sys.workers[w];
    WorkerFollowsTheLog(prefix, actions, w);
    MatchingIsAsPublished(prefix, sys.log, |sys.log|);
    assert sys.log[..|sys.log|] == sys.log;
    assert k.received == k.received[0..] == Matching(prefix, sys.log, 0, |sys.log|);
    forall n | 0 <= n < |k.received|
      ensures k.bus.log[n] == AsPublished(prefix, sys.log)[n]
    {
      assert ReceivedOk(prefix, sys.log, k, n);
    }
  }

  /** Swapping backends preserves behaviour: with the connection up throughout, a subscriber of the Redis bus
      and a subscriber of an in-process bus given the same publishes hold the same events in the same order. */
  lemma RedisMatchesInProcess(prefix: string, actions: seq<Action>, w: nat, i: nat, steps: seq<Step>, j: nat)
    requires w < |RunSystem(prefix, actions).workers|
    requires var sys := RunSystem(prefix, actions);
             var k := sys.workers[w];
             && k.connected && k.since == 0 && k.mark == 0 && k.cursor == |sys.log| && Idle(k.bus)
             && i < |k.bus.subs| && !k.bus.subs[i].closed
             && Serial(steps) && Idle(Run(steps)) && Run(steps).log == AsPublished(prefix, sys.log)
             && j < |Run(steps).subs| && !Run(steps).subs[j].closed
             && Run(steps).subs[j].asked == k.bus.subs[i].asked && Run(steps).subs[j].born == k.bus.subs[i].born
    ensures var bus := RunSystem(prefix, actions).workers[w].bus;
            && Within(bus.subs[i].puts, |bus.log|) && Within(Run(steps).subs[j].puts, |Run(steps).log|)
            && EventsOf(bus.log, bus.subs[i].puts) == EventsOf(Run(steps).log, Run(steps).subs[j].puts)
  {
    var bus := RunSystem(prefix, actions).workers[w].bus;
    DrainedWorkerLog(prefix, actions, w);
    WorkerRefinesInProcessBus(prefix, actions, w);
    OpenMailboxIsTheLog(Project(prefix, actions, w), i);
    OpenMailboxIsTheLog(steps, j);
    WantedIsExact(bus.log, bus.subs[i].asked, bus.subs[i].born, |bus.log|);
    var puts := bus.subs[i].puts;
    assert forall k | 0 <= k < |puts| :: puts[k] in puts;
  }
}
