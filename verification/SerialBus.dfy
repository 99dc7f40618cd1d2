/** Schedules whose publishes do not overlap one another, while subscribing, closing and consuming go on at
    any moment. A single publishing thread gives such schedules; so does the listener thread of a Redis worker. */
module SerialBus {
  import opened Common
  import opened BusIndex
  import opened EventBus
  import opened BusMachine

  ghost predicate Finished(f: Fanout) {
    f.next == |f.snapshot|
  }

  ghost predicate Idle(s: State) {
    forall n | 0 <= n < |s.fanouts| :: Finished(s.fanouts[n])
  }

  /** A publish begins only when every earlier one has been handed to its whole snapshot. */
  ghost predicate Serial(steps: seq<Step>) {
    steps == [] ||
    (Serial(steps[..|steps| - 1]) && (steps[|steps| - 1].BeginPublish? ==> Idle(Run(steps[..|steps| - 1]))))
  }

  /** The publishes number `from` to `to` on a channel in `asked`, in order. */
  function Wanted(log: seq<Published>, asked: seq<Channel>, from: nat, to: nat): seq<nat>
    requires from <= to <= |log|
  {
    if from == to then []
    else if log[to - 1].channel in asked then Wanted(log, asked, from, to - 1) + [to - 1]
    else Wanted(log, asked, from, to - 1)
  }

  lemma {:induction false} WantedLogGrows(log: seq<Published>, p: Published, asked: seq<Channel>, from: nat, to: nat)
    requires from <= to <= |log|
    ensures Wanted(log + [p], asked, from, to) == Wanted(log, asked, from, to)
  {
    if from < to {
      WantedLogGrows(log, p, asked, from, to - 1);
    }
  }

  /** Wanted publishes are listed once each, in publish order, and nothing wanted is missing. */
  lemma {:induction false} WantedIsExact(log: seq<Published>, asked: seq<Channel>, from: nat, to: nat)
    requires from <= to <= |log|
    ensures forall n :: n in Wanted(log, asked, from, to) <==> from <= n < to && log[n].channel in asked
    ensures forall j, k :: 0 <= j < k < |Wanted(log, asked, from, to)| ==>
                           Wanted(log, asked, from, to)[j] < Wanted(log, asked, from, to)[k]
  {
    if from < to {
      WantedIsExact(log, asked, from, to - 1);
      var init := Wanted(log, asked, from, to - 1);
      assert forall j | 0 <= j < |init| :: init[j] in init;
    }
  }

  /** The running publish has not come to subscription i yet. */
  ghost predicate Ahead(s: State, i: nat) {
    var n := |s.fanouts|;
    n > 0 && s.fanouts[n - 1].next <= |s.fanouts[n - 1].snapshot| && i in s.fanouts[n - 1].snapshot[s.fanouts[n - 1].next..]
  }

  /** The running publish has seen subscription i open and is about to put. */
  ghost predicate AtPut(s: State, i: nat) {
    var n := |s.fanouts|;
    n > 0 && s.fanouts[n - 1].passed && s.fanouts[n - 1].next < |s.fanouts[n - 1].snapshot| &&
    s.fanouts[n - 1].snapshot[s.fanouts[n - 1].next] == i
  }

  /** How far the publishes have been handled as far as subscription i is concerned. */
  ghost function HandledUpTo(s: State, i: nat): nat
    requires |s.log| == |s.fanouts|
  {
    if Ahead(s, i) then |s.log| - 1 else |s.log|
  }

  ghost predicate OpenFifo(s: State, i: nat)
    requires i < |s.subs| && |s.log| == |s.fanouts|
  {
    var u := s.subs[i];
    u.born <= HandledUpTo(s, i) && u.puts == Wanted(s.log, u.asked, u.born, HandledUpTo(s, i))
  }

  ghost predicate ClosedFifo(s: State, i: nat)
    requires i < |s.subs|
  {
    var u := s.subs[i];
    && u.born <= u.sealed <= |s.log|
    && (u.puts == Wanted(s.log, u.asked, u.born, u.sealed) ||
        (u.born < u.sealed && u.puts == Wanted(s.log, u.asked, u.born, u.sealed - 1)))
    && (AtPut(s, i) ==> u.born < u.sealed == |s.log| && u.puts == Wanted(s.log, u.asked, u.born, u.sealed - 1))
  }

  ghost predicate Fifo(s: State, i: nat)
    requires i < |s.subs| && |s.log| == |s.fanouts|
  {
    if s.subs[i].closed then ClosedFifo(s, i) else OpenFifo(s, i)
  }

  ghost predicate SerialInv(s: State) {
    && IndexInv(s) && CloserInv(s) && DeliveryInv(s)
    && (forall n | 0 <= n < |s.fanouts| - 1 :: Finished(s.fanouts[n]))
    && (forall i | 0 <= i < |s.subs| :: Fifo(s, i))
  }

  lemma AheadInSnapshot(s: State, i: nat)
    requires DeliveryInv(s) && Ahead(s, i)
    ensures i < |s.subs| && i in s.fanouts[|s.fanouts| - 1].snapshot && s.subs[i].born < |s.log|
    ensures s.log[|s.log| - 1].channel in s.subs[i].asked
  {
    var n := |s.fanouts| - 1;
    assert FanoutOk(s, n);
    var f := s.fanouts[n];
    var k :| f.next <= k < |f.snapshot| && f.snapshot[k] == i;
  }

  lemma BeginKeepsFifo(s: State, channel: Channel, event: Event, i: nat)
    requires SerialInv(s) && Idle(s) && i < |s.subs|
    ensures Fifo(Apply(s, BeginPublish(channel, event)), i)
  {
    var t := Apply(s, BeginPublish(channel, event));
    var u := s.subs[i];
    assert Fifo(s, i);
    assert s.fanouts != [] ==> Finished(s.fanouts[|s.fanouts| - 1]);
    assert t.fanouts[|s.fanouts|].snapshot[0..] == Bucket(s.index, channel);
    assert Ahead(t, i) <==> Holds(s.index, channel, i);
    assert Holds(s.index, channel, i) <==> Registered(s, channel, i);
    if u.closed {
      WantedLogGrows(s.log, Published(channel, event), u.asked, u.born, u.sealed);
      if u.born < u.sealed {
        WantedLogGrows(s.log, Published(channel, event), u.asked, u.born, u.sealed - 1);
      }
    } else {
      assert HandledUpTo(s, i) == |s.log|;
      WantedLogGrows(s.log, Published(channel, event), u.asked, u.born, |s.log|);
    }
  }

  lemma SubscribeKeepsFifo(s: State, channels: seq<Channel>, i: nat)
    requires SerialInv(s) && i <= |s.subs|
    ensures Fifo(Apply(s, Subscribe(channels)), i)
  {
    var t := Apply(s, Subscribe(channels));
    if i < |s.subs| {
      assert Fifo(s, i);
    } else if Ahead(s, i) {
      AheadInSnapshot(s, i);
      assert false;
    }
  }

  /** Only the last publish can still be running. */
  lemma OnlyLastRuns(s: State, n: nat)
    requires SerialInv(s) && Delivering(s, n)
    ensures n == |s.fanouts| - 1
  {
    assert n < |s.fanouts| - 1 ==> Finished(s.fanouts[n]);
  }

  lemma AheadAdvance(s: State, t: State, i: nat)
    requires s.fanouts != []
    requires s.fanouts[|s.fanouts| - 1].next < |s.fanouts[|s.fanouts| - 1].snapshot|
    requires NoDup(s.fanouts[|s.fanouts| - 1].snapshot)
    requires t.fanouts == s.fanouts[|s.fanouts| - 1 := Advance(s.fanouts[|s.fanouts| - 1])]
    ensures Ahead(t, i) <==> Ahead(s, i) && i != s.fanouts[|s.fanouts| - 1].snapshot[s.fanouts[|s.fanouts| - 1].next]
  {
    var f := s.fanouts[|s.fanouts| - 1];
    assert f.snapshot[f.next..] == [f.snapshot[f.next]] + f.snapshot[f.next + 1..];
  }

  lemma PutKeepsFifo(s: State, n: nat, j: nat)
    requires SerialInv(s) && Apply(s, Put(n)) != s && j < |s.subs|
    ensures Fifo(Apply(s, Put(n)), j)
  {
    var t := Apply(s, Put(n));
    var i := Target(s, n);
    OnlyLastRuns(s, n);
    assert FanoutOk(s, n) && Fifo(s, j);
    AheadAdvance(s, t, j);
    assert Ahead(s, i);
    AheadInSnapshot(s, i);
  }

  lemma CheckKeepsFifo(s: State, n: nat, j: nat)
    requires SerialInv(s) && Apply(s, CheckOpen(n)) != s && j < |s.subs|
    ensures Fifo(Apply(s, CheckOpen(n)), j)
  {
    var t := Apply(s, CheckOpen(n));
    OnlyLastRuns(s, n);
    assert FanoutOk(s, n) && Fifo(s, j);
    if s.subs[Target(s, n)].closed {
      AheadAdvance(s, t, j);
    } else {
      assert Ahead(t, j) == Ahead(s, j);
    }
  }

  lemma CloseKeepsFifo(s: State, k: nat, j: nat)
    requires SerialInv(s) && j < |s.subs|
    ensures Fifo(Apply(s, MarkClosed(k)), j)
  {
    var t := Apply(s, MarkClosed(k));
    assert Fifo(s, j);
    assert Ahead(t, j) == Ahead(s, j) && AtPut(t, j) == AtPut(s, j);
    if AtPut(s, j) {
      var f := s.fanouts[|s.fanouts| - 1];
      assert f.snapshot[f.next..][0] == j;
      assert Ahead(s, j);
    }
    if Ahead(s, j) {
      AheadInSnapshot(s, j);
    }
  }

  lemma FifoFrame(s: State, t: State, i: nat)
    requires |s.log| == |s.fanouts| && i < |s.subs| == |t.subs| && Fifo(s, i)
    requires t.fanouts == s.fanouts && t.log == s.log
    requires t.subs[i] == s.subs[i].(live := t.subs[i].live, taken := t.subs[i].taken)
    ensures Fifo(t, i)
  {
    assert Ahead(t, i) == Ahead(s, i) && AtPut(t, i) == AtPut(s, i);
  }

  lemma StepKeepsFifo(s: State, step: Step, i: nat)
    requires SerialInv(s) && (step.BeginPublish? ==> Idle(s)) && i < |Apply(s, step).subs|
    requires |Apply(s, step).log| == |Apply(s, step).fanouts|
    ensures Fifo(Apply(s, step), i)
  {
    match step
    case Subscribe(channels) => SubscribeKeepsFifo(s, channels, i);
    case BeginPublish(channel, event) => BeginKeepsFifo(s, channel, event, i);
    case CheckOpen(n) =>
      assert Fifo(s, i);
      if Apply(s, step) != s { CheckKeepsFifo(s, n, i); }
    case Put(n) =>
      assert Fifo(s, i);
      if Apply(s, step) != s { PutKeepsFifo(s, n, i); }
    case MarkClosed(k) => CloseKeepsFifo(s, k, i);
    case _ =>
      assert Fifo(s, i);
      FifoFrame(s, Apply(s, step), i);
  }

  lemma StepKeepsOneRunning(s: State, step: Step)
    requires SerialInv(s) && (step.BeginPublish? ==> Idle(s))
    ensures forall n | 0 <= n < |Apply(s, step).fanouts| - 1 :: Finished(Apply(s, step).fanouts[n])
  {
    match step
    case CheckOpen(n) => if Delivering(s, n) { OnlyLastRuns(s, n); }
    case Put(n) => if Delivering(s, n) { OnlyLastRuns(s, n); }
    case _ =>
  }

  lemma {:induction false} SerialAlways(steps: seq<Step>)
    requires Serial(steps)
    ensures SerialInv(Run(steps))
  {
    IndexAlwaysExact(steps);
    DeliveryAlways(steps);
    if steps != [] {
      var s, step := Run(steps[..|steps| - 1]), steps[|steps| - 1];
      SerialAlways(steps[..|steps| - 1]);
      StepKeepsOneRunning(s, step);
      forall i | 0 <= i < |Run(steps).subs|
        ensures Fifo(Run(steps), i)
      {
        StepKeepsFifo(s, step, i);
      }
    }
  }

  /** The queue history of an open subscription is exactly the publishes begun since it subscribed on the
      channels it asked for, in publish order. */
  lemma {:induction false} OpenMailboxIsTheLog(steps: seq<Step>, i: nat)
    requires Serial(steps) && Idle(Run(steps)) && i < |Run(steps).subs| && !Run(steps).subs[i].closed
    ensures Run(steps).subs[i].born <= |Run(steps).log|
    ensures var u := Run(steps).subs[i];
            u.puts == Wanted(Run(steps).log, u.asked, u.born, |Run(steps).log|)
  {
    SerialAlways(steps);
    var s := Run(steps);
    assert Fifo(s, i);
    assert s.fanouts != [] ==> Finished(s.fanouts[|s.fanouts| - 1]);
  }

  /** A closed one got exactly the publishes begun before its flag was set, except possibly the last of them,
      the one that was being delivered at that moment. */
  lemma {:induction false} ClosedMailboxIsTheLogUpToClose(steps: seq<Step>, i: nat)
    requires Serial(steps) && i < |Run(steps).subs| && Run(steps).subs[i].closed
    ensures var u := Run(steps).subs[i];
            && u.born <= u.sealed <= |Run(steps).log|
            && (u.puts == Wanted(Run(steps).log, u.asked, u.born, u.sealed) ||
                (u.born < u.sealed && u.puts == Wanted(Run(steps).log, u.asked, u.born, u.sealed - 1)))
  {
    SerialAlways(steps);
    assert Fifo(Run(steps), i);
  }

  lemma {:induction false} SerialPrefix(a: seq<Step>, b: seq<Step>)
    requires Serial(a + b)
    ensures Serial(a)
  {
    if b == [] {
      assert a + b == a;
    } else {
      assert (a + b)[..|a + b| - 1] == a + b[..|b| - 1];
      SerialPrefix(a, b[..|b| - 1]);
    }
  }

  lemma StepLeavesClosedAlone(s: State, step: Step, i: nat)
    requires SerialInv(s) && i < |s.subs| && s.subs[i].closed && !AtPut(s, i)
    ensures var t := Apply(s, step);
            && i < |t.subs| && t.subs[i].closed && !AtPut(t, i) && t.subs[i].puts == s.subs[i].puts
            && t.subs[i].asked == s.subs[i].asked && t.subs[i].born == s.subs[i].born
            && s.log <= t.log
  {
    match step
    case CheckOpen(n) => if Delivering(s, n) { OnlyLastRuns(s, n); }
    case Put(n) => if Delivering(s, n) { OnlyLastRuns(s, n); }
    case _ =>
  }

  /** In t, subscription i is closed for good with exactly the history it could have in s. */
  ghost predicate CutAt(s: State, t: State, i: nat) {
    && i < |s.subs| && i < |t.subs| && s.subs[i].born <= |s.log| && t.subs[i].closed && !AtPut(t, i)
    && t.subs[i].asked == s.subs[i].asked && s.log <= t.log
    && t.subs[i].puts == Wanted(s.log, s.subs[i].asked, s.subs[i].born, |s.log|)
  }

  lemma {:induction false} CloseCuts(before: seq<Step>, k: nat, i: nat)
    requires Serial(before) && Idle(Run(before)) && i < |Run(before).subs| && !Run(before).subs[i].closed
    requires var t := Apply(Run(before), MarkClosed(k)); i < |t.subs| && t.subs[i].closed
    ensures CutAt(Run(before), Apply(Run(before), MarkClosed(k)), i)
  {
    OpenMailboxIsTheLog(before, i);
    assert Run(before).fanouts != [] ==> Finished(Run(before).fanouts[|Run(before).fanouts| - 1]);
  }

  lemma StepKeepsCut(s: State, t: State, step: Step, i: nat)
    requires CutAt(s, t, i) && SerialInv(t)
    ensures CutAt(s, Apply(t, step), i)
  {
    StepLeavesClosedAlone(t, step, i);
  }

  /** A close that falls between publishes cuts the history exactly there, whatever happens afterwards. */
  lemma {:induction false} CloseBetweenPublishesIsExact(before: seq<Step>, k: nat, after: seq<Step>, i: nat)
    requires Serial(before + [MarkClosed(k)] + after) && Idle(Run(before))
    requires i < |Run(before).subs| && !Run(before).subs[i].closed
    requires i < |Run(before + [MarkClosed(k)]).subs| && Run(before + [MarkClosed(k)]).subs[i].closed
    ensures CutAt(Run(before), Run(before + [MarkClosed(k)] + after), i)
    decreases |after|
  {
    var middle := before + [MarkClosed(k)];
    RunSnoc(before, MarkClosed(k));
    if after == [] {
      assert middle + after == middle;
      SerialPrefix(before, [MarkClosed(k)]);
      CloseCuts(before, k, i);
    } else {
      var init, last := after[..|after| - 1], after[|after| - 1];
      AppendInTwo(middle, after);
      SerialPrefix(middle + init, [last]);
      CloseBetweenPublishesIsExact(before, k, init, i);
      SerialAlways(middle + init);
      RunSnoc(middle + init, last);
      StepKeepsCut(Run(before), Run(middle + init), last, i);
    }
  }
}
