/** What each thread of the bus comes to when nobody interrupts it, from any state the others can have left behind; and
    that none ever gets stuck. */
module BusThreads {
  import opened Common
  import opened BusIndex
  import opened EventBus
  import opened BusMachine

  /** The publishes among the steps, in order. */
  function Begun(steps: seq<Step>): seq<Published> {
    if steps == [] then []
    else
      match steps[|steps| - 1]
      case BeginPublish(channel, event) => Begun(steps[..|steps| - 1]) + [Published(channel, event)]
      case _ => Begun(steps[..|steps| - 1])
  }

  /** In every schedule the log is what was published. */
  lemma {:induction false} LogIsWhatBegan(steps: seq<Step>)
    ensures Run(steps).log == Begun(steps)
  {
    if steps != [] {
      LogIsWhatBegan(steps[..|steps| - 1]);
    }
  }

  /** Subscribing adds one open mailbox, with nothing in it, for exactly the listed channels, and touches no other. */
  lemma SubscribeIsExact(s: State, channels: seq<Channel>)
    ensures var t := Apply(s, Subscribe(channels));
            && |t.subs| == |s.subs| + 1 && t.subs[..|s.subs|] == s.subs
            && t.log == s.log && t.fanouts == s.fanouts && t.closers == s.closers
            && var u := t.subs[|s.subs|];
               && (forall c :: c in u.asked <==> c in channels)
               && u.live && !u.closed && u.puts == [] && u.taken == 0 && u.born == |s.log|
  {
    DedupeIsDistinct(channels);
  }

  /** What is waiting in a mailbox. */
  function Waiting(u: Subscriber): seq<nat>
    requires u.taken <= |u.puts|
  {
    u.puts[u.taken..]
  }

  /** Consuming takes the mailbox's first event, whenever there is one, and nothing else. */
  lemma TakeIsExact(s: State, i: nat)
    requires i < |s.subs| && s.subs[i].taken < |s.subs[i].puts|
    ensures var t := Apply(s, Take(i));
            && |t.subs| == |s.subs| && t == s.(subs := t.subs) && t.subs[i] == s.subs[i].(taken := t.subs[i].taken)
            && t.subs[i].taken <= |t.subs[i].puts| && Waiting(s.subs[i]) == [s.subs[i].puts[s.subs[i].taken]] + Waiting(t.subs[i])
            && forall j | 0 <= j < |s.subs| && j != i :: t.subs[j] == s.subs[j]
  {
  }

  function RunFrom(s: State, steps: seq<Step>): State {
    if steps == [] then s else Apply(RunFrom(s, steps[..|steps| - 1]), steps[|steps| - 1])
  }

  lemma {:induction false} RunInTwo(before: seq<Step>, after: seq<Step>)
    ensures Run(before + after) == RunFrom(Run(before), after)
  {
    if after == [] {
      assert before + after == before;
    } else {
      AppendInTwo(before, after);
      RunSnoc(before + after[..|after| - 1], after[|after| - 1]);
      RunInTwo(before, after[..|after| - 1]);
    }
  }

  lemma {:induction false} RunFromInTwo(s: State, a: seq<Step>, b: seq<Step>)
    ensures RunFrom(s, a + b) == RunFrom(RunFrom(s, a), b)
  {
    if b == [] {
      assert a + b == a;
    } else {
      var init := b[..|b| - 1];
      assert (a + b)[..|a + b| - 1] == a + init;
      RunFromInTwo(s, a, init);
    }
  }

  /** The thread of publish n, from where it is to its end: between s and t it has put n into exactly the mailboxes
      still ahead of it that are open, once each (and into the one it had already seen open), and done nothing else. */
  ghost predicate FinishedAlone(s: State, t: State, n: nat) {
    && n < |s.fanouts| && t == s.(subs := t.subs, fanouts := t.fanouts) && |t.subs| == |s.subs|
    && |t.fanouts| == |s.fanouts| && t.fanouts[n].snapshot == s.fanouts[n].snapshot
    && t.fanouts[n].next == |t.fanouts[n].snapshot| && !t.fanouts[n].passed
    && (forall m | 0 <= m < |s.fanouts| && m != n :: t.fanouts[m] == s.fanouts[m])
    && (forall i | 0 <= i < |s.subs| ::
          t.subs[i] == s.subs[i].(puts := s.subs[i].puts + if ToGo(s, n, i) then [n] else []))
  }

  ghost predicate ToGo(s: State, n: nat, i: nat)
    requires n < |s.fanouts| && i < |s.subs|
  {
    var f := s.fanouts[n];
    f.next <= |f.snapshot| && i in f.snapshot[f.next..] && (!s.subs[i].closed || (f.passed && i == f.snapshot[f.next]))
  }

  /** One visit: the check, unless it is already behind the thread, and the put, if the mailbox was open. */
  function Visit(s: State, n: nat): seq<Step>
    requires Delivering(s, n)
  {
    if s.fanouts[n].passed then [Put(n)]
    else if s.subs[Target(s, n)].closed then [CheckOpen(n)]
    else [CheckOpen(n), Put(n)]
  }

  ghost predicate CanRun(s: State, n: nat) {
    && n < |s.fanouts| && PositionOk(s.fanouts[n]) && NoDup(s.fanouts[n].snapshot)
    && forall k | 0 <= k < |s.fanouts[n].snapshot| :: s.fanouts[n].snapshot[k] < |s.subs|
  }

  /** What a visit comes to. */
  ghost function Visited(s: State, n: nat): State
    requires Delivering(s, n)
  {
    var i := Target(s, n);
    var put := s.fanouts[n].passed || !s.subs[i].closed;
    s.(fanouts := s.fanouts[n := Advance(s.fanouts[n])],
       subs := if put then s.subs[i := s.subs[i].(puts := s.subs[i].puts + [n])] else s.subs)
  }

  lemma VisitIsExact(s: State, n: nat)
    requires Delivering(s, n)
    ensures RunFrom(s, Visit(s, n)) == Visited(s, n)
  {
    var steps := Visit(s, n);
    assert steps[..0] == [] && RunFrom(s, []) == s;
    if |steps| == 2 {
      assert steps[..1] == [CheckOpen(n)] && steps[..1][..0] == [];
      assert RunFrom(s, steps[..1]) == Apply(s, CheckOpen(n));
    }
  }

  lemma VisitedGoesOn(s: State, n: nat, t: State)
    requires CanRun(s, n) && Delivering(s, n) && FinishedAlone(Visited(s, n), t, n)
    ensures FinishedAlone(s, t, n)
  {
    var f, mid := s.fanouts[n], Visited(s, n);
    assert f.snapshot[f.next..] == [f.snapshot[f.next]] + f.snapshot[f.next + 1..];
    forall i | 0 <= i < |s.subs|
      ensures t.subs[i] == s.subs[i].(puts := s.subs[i].puts + if ToGo(s, n, i) then [n] else [])
    {
      assert t.subs[i] == mid.subs[i].(puts := mid.subs[i].puts + if ToGo(mid, n, i) then [n] else []);
    }
  }

  lemma VisitedCanRun(s: State, n: nat)
    requires CanRun(s, n) && Delivering(s, n)
    ensures CanRun(Visited(s, n), n) && n < |Visited(s, n).fanouts|
    ensures Visited(s, n).fanouts[n] == Advance(s.fanouts[n])
  {
  }

  lemma NothingToGo(s: State, n: nat)
    requires CanRun(s, n) && s.fanouts[n].next == |s.fanouts[n].snapshot|
    ensures FinishedAlone(s, s, n)
  {
    assert s.fanouts[n].snapshot[s.fanouts[n].next..] == [];
  }

  /** No publish ever gets stuck: from wherever it is, its thread can run to its end. */
  lemma {:induction false} FinishAlone(s: State, n: nat) returns (steps: seq<Step>)
    requires CanRun(s, n)
    ensures forall k | 0 <= k < |steps| :: steps[k] == CheckOpen(n) || steps[k] == Put(n)
    ensures FinishedAlone(s, RunFrom(s, steps), n)
    decreases |s.fanouts[n].snapshot| - s.fanouts[n].next
  {
    if s.fanouts[n].next == |s.fanouts[n].snapshot| {
      steps := [];
      NothingToGo(s, n);
    } else {
      VisitIsExact(s, n);
      VisitedCanRun(s, n);
      var rest := FinishAlone(Visited(s, n), n);
      steps := Visit(s, n) + rest;
      RunFromInTwo(s, Visit(s, n), rest);
      VisitedGoesOn(s, n, RunFrom(s, steps));
    }
  }

  /** Between s and t one publish has run from its first step to its last: its event is at the end of exactly the open
      mailboxes that asked for the channel, and nothing else has happened. */
  ghost predicate PublishedAlone(s: State, t: State, channel: Channel, event: Event) {
    var n := |s.log|;
    && |s.fanouts| == n && t.log == s.log + [Published(channel, event)] && t.index == s.index && t.closers == s.closers
    && |t.fanouts| == n + 1 && t.fanouts[..n] == s.fanouts && t.fanouts[n].next == |t.fanouts[n].snapshot|
    && |t.subs| == |s.subs|
    && forall i | 0 <= i < |s.subs| ::
         t.subs[i] == s.subs[i].(puts := s.subs[i].puts +
                                         if !s.subs[i].closed && channel in s.subs[i].asked then [n] else [])
  }

  /** After any schedule, a publish whose thread is not interrupted does just what `Publish` promises of the bus as one
      object. */
  lemma PublishAlone(before: seq<Step>, channel: Channel, event: Event) returns (rest: seq<Step>)
    ensures forall k | 0 <= k < |rest| :: rest[k] == CheckOpen(|Run(before).log|) || rest[k] == Put(|Run(before).log|)
    ensures PublishedAlone(Run(before), Run(before + [BeginPublish(channel, event)] + rest), channel, event)
  {
    var s, n := Run(before), |Run(before).log|;
    IndexAlwaysExact(before);
    DeliveryAlways(before);
    BeginKeepsDelivery(s, channel, event);
    RunSnoc(before, BeginPublish(channel, event));
    var mid := Run(before + [BeginPublish(channel, event)]);
    assert FanoutOk(mid, n);
    rest := FinishAlone(mid, n);
    RunInTwo(before + [BeginPublish(channel, event)], rest);
    assert mid.fanouts[n].snapshot[0..] == Bucket(s.index, channel);
    forall i: nat | i < |s.subs|
      ensures ToGo(mid, n, i) <==> !s.subs[i].closed && channel in s.subs[i].asked
    {
      assert Holds(s.index, channel, i) <==> Registered(s, channel, i);
    }
  }

  /** What the three steps of a close come to. */
  ghost function ClosedNow(s: State, i: nat): State
    requires i < |s.subs|
  {
    s.(index := Unregister<nat>(s.index, Unregistered(s.subs[i]), i),
       subs := s.subs[i := s.subs[i].(closed := true, live := false, sealed := |s.log|)],
       closers := s.closers + [Closer(i, Left)])
  }

  lemma CloseSteps(s: State, i: nat)
    requires i < |s.subs| && !s.subs[i].closed
    ensures var k := |s.closers|;
            Apply(Apply(Apply(s, BeginClose(i)), MarkClosed(k)), Leave(k)) == ClosedNow(s, i)
  {
    var k := |s.closers|;
    var a := Apply(s, BeginClose(i));
    var b := Apply(a, MarkClosed(k));
    assert a.closers[k] == Closer(i, SawOpen) && b.closers[k] == Closer(i, Marked);
    assert Unregistered(b.subs[i]) == Unregistered(s.subs[i]);
  }

  lemma ClosedIsNowhere(s: State, i: nat)
    requires IndexInv(s) && i < |s.subs|
    ensures forall c, j: nat :: Holds(ClosedNow(s, i).index, c, j) <==> Holds(s.index, c, j) && j != i
  {
    UnregisterMembers<nat>(s.index, Unregistered(s.subs[i]), i);
    forall c
      ensures Holds(s.index, c, i) ==> c in Unregistered(s.subs[i])
    {
      assert Holds(s.index, c, i) <==> Registered(s, c, i);
    }
  }

  lemma RunThree(before: seq<Step>, a: Step, b: Step, c: Step)
    ensures Run(before + [a, b, c]) == Apply(Apply(Apply(Run(before), a), b), c)
  {
    assert before + [a, b, c] == before + [a] + [b] + [c];
    RunSnoc(before, a);
    RunSnoc(before + [a], b);
    RunSnoc(before + [a] + [b], c);
  }

  /** After any schedule: a close that is not interrupted marks that one mailbox, takes it out of every bucket, and
      leaves every other mailbox and registration alone. */
  lemma CloseAlone(before: seq<Step>, i: nat)
    requires i < |Run(before).subs| && !Run(before).subs[i].closed
    ensures var s := Run(before);
            var k := |s.closers|;
            var t := Run(before + [BeginClose(i), MarkClosed(k), Leave(k)]);
            && |t.subs| == |s.subs| && t.log == s.log && t.fanouts == s.fanouts
            && t.subs[i] == s.subs[i].(closed := true, live := false, sealed := |s.log|)
            && (forall j | 0 <= j < |s.subs| && j != i :: t.subs[j] == s.subs[j])
            && (forall c, j: nat :: Holds(t.index, c, j) <==> Holds(s.index, c, j) && j != i)
  {
    var k := |Run(before).closers|;
    RunThree(before, BeginClose(i), MarkClosed(k), Leave(k));
    CloseSteps(Run(before), i);
    IndexAlwaysExact(before);
    ClosedIsNowhere(Run(before), i);
  }
}
