/** The loop that turns a mailbox into an event stream, with its heartbeat and its lifetime cap, against an
    arbitrary arrival history, an arbitrarily slow consumer and a close at any turn. */
module StreamLoop {
  import opened Common
  import opened EventBus

  /** An event reaching the queue at a moment; the queue is first in, first out. */
  datatype Arrival = Arrival(at: real, event: Event)

  datatype Yield = Heartbeat | Item(event: Event)

  /** One blocking read: when it began, its timeout, how many events had been consumed, and what was yielded. */
  datatype Get = Get(at: real, limit: Option<real>, ahead: nat, result: Option<Yield>)

  /** `Blocked` waits on an empty queue with no timeout; `Observed` is a stream still running when we stop looking. */
  datatype Ending = Closed | Expired | Blocked | Observed

  predicate InOrder(arrivals: seq<Arrival>) {
    forall i, j :: 0 <= i < j < |arrivals| ==> arrivals[i].at <= arrivals[j].at
  }

  function Items(out: seq<Yield>): seq<Event> {
    if out == [] then []
    else
      var init := Items(out[..|out| - 1]);
      match out[|out| - 1]
      case Item(e) => init + [e]
      case Heartbeat => init
  }

  function Heartbeats(out: seq<Yield>): nat {
    if out == [] then 0
    else Heartbeats(out[..|out| - 1]) + if out[|out| - 1].Heartbeat? then 1 else 0
  }

  function Events(arrivals: seq<Arrival>): seq<Event> {
    seq(|arrivals|, i requires 0 <= i < |arrivals| => arrivals[i].event)
  }

  /** n heartbeat intervals one after the other. */
  function Times(n: nat, interval: real): real {
    if n == 0 then 0.0 else Times(n - 1, interval) + interval
  }

  lemma {:induction false} TimesIsProduct(n: nat, interval: real)
    ensures Times(n, interval) == n as real * interval
  {
    if n > 0 {
      TimesIsProduct(n - 1, interval);
    }
  }

  /** A read never waits past the deadline, nor longer than the heartbeat; it gives a heartbeat only when
      nothing was due within its timeout, and an event only when that event was the next one due. */
  predicate GetOk(arrivals: seq<Arrival>, deadline: Option<real>, heartbeat: Option<real>, r: Get) {
    && r.ahead <= |arrivals|
    && (deadline.Some? ==> r.at < deadline.value && r.limit.Some? && r.at + r.limit.value <= deadline.value)
    && (heartbeat.Some? ==> r.limit.Some? && r.limit.value <= heartbeat.value)
    && (r.limit.Some? ==> r.limit.value > 0.0)
    && (r.limit.Some? ==> Some(r.limit.value) == heartbeat || Some(r.at + r.limit.value) == deadline)
    && match r.result
       case Some(Item(e)) => r.ahead < |arrivals| && e == arrivals[r.ahead].event && Due(arrivals, r)
       case Some(Heartbeat) => heartbeat.Some? && !Due(arrivals, r)
       case None => heartbeat.None? && !Due(arrivals, r)
  }

  /** The next event is in the queue before the read times out. */
  predicate Due(arrivals: seq<Arrival>, r: Get) {
    r.ahead < |arrivals| && (r.limit.Some? ==> arrivals[r.ahead].at <= r.at + r.limit.value)
  }

  /** The timeout of a read: the heartbeat or what is left of the stream's life, whichever is shorter. */
  function Limit(deadline: Option<real>, heartbeat: Option<real>, now: real): (wait: Option<real>)
    requires deadline.Some? ==> now < deadline.value
    requires heartbeat.Some? ==> heartbeat.value > 0.0
    ensures wait.None? <==> deadline.None? && heartbeat.None?
    ensures wait.Some? ==> wait.value > 0.0 && (Some(wait.value) == heartbeat || Some(now + wait.value) == deadline)
    ensures wait.Some? && deadline.Some? ==> now + wait.value <= deadline.value
    ensures wait.Some? && heartbeat.Some? ==> wait.value <= heartbeat.value
  {
    match (deadline, heartbeat)
    case (None, _) => heartbeat
    case (Some(d), None) => Some(d - now)
    case (Some(d), Some(h)) => if d - now < h then Some(d - now) else heartbeat
  }

  /** One read, to its end: the next event if it is due in time, else a heartbeat where they are wanted. */
  function Read(arrivals: seq<Arrival>, deadline: Option<real>, heartbeat: Option<real>, now: real, taken: nat): (r: Get)
    requires taken <= |arrivals| && (deadline.Some? ==> now < deadline.value)
    requires heartbeat.Some? ==> heartbeat.value > 0.0
    ensures GetOk(arrivals, deadline, heartbeat, r) && r.at == now && r.ahead == taken
    ensures r.limit == Limit(deadline, heartbeat, now)
    ensures r.result.Some? && r.result.value.Item? <==> Due(arrivals, r)
  {
    var waiting := Get(now, Limit(deadline, heartbeat, now), taken, None);
    if Due(arrivals, waiting) then waiting.(result := Some(Item(arrivals[taken].event)))
    else if heartbeat.Some? then waiting.(result := Some(Heartbeat))
    else waiting
  }

  ghost predicate ReadsOk(arrivals: seq<Arrival>, deadline: Option<real>, heartbeat: Option<real>, gets: seq<Get>) {
    forall j | 0 <= j < |gets| :: GetOk(arrivals, deadline, heartbeat, gets[j])
  }

  lemma ReadsSnoc(arrivals: seq<Arrival>, deadline: Option<real>, heartbeat: Option<real>, gets: seq<Get>, r: Get)
    requires ReadsOk(arrivals, deadline, heartbeat, gets) && GetOk(arrivals, deadline, heartbeat, r)
    ensures ReadsOk(arrivals, deadline, heartbeat, gets + [r])
  {
  }

  // ---- The record of a run ---------------------------------------------------------------------------------

  /** What the reads yielded, in order. */
  function Yielded(gets: seq<Get>): seq<Yield> {
    if gets == [] then []
    else
      Yielded(gets[..|gets| - 1]) +
      match gets[|gets| - 1].result
      case Some(y) => [y]
      case None => []
  }

  /** How many of them took an event from the queue. */
  function Consumed(gets: seq<Get>): nat {
    if gets == [] then 0
    else
      Consumed(gets[..|gets| - 1]) +
      match gets[|gets| - 1].result
      case Some(Item(_)) => 1
      case _ => 0
  }

  /** When a read is over: as soon as the event it gives is in the queue, or when its timeout is. */
  function EndOf(arrivals: seq<Arrival>, r: Get): real {
    if r.result.Some? && r.result.value.Item? && r.ahead < |arrivals| then
      if arrivals[r.ahead].at > r.at then arrivals[r.ahead].at else r.at
    else if r.limit.Some? then r.at + r.limit.value
    else r.at
  }

  /** The time after these reads, and after what the consumer took for each. */
  function Clock(start: real, arrivals: seq<Arrival>, pauses: seq<real>, gets: seq<Get>): real
    requires |gets| <= |pauses|
  {
    if gets == [] then start else EndOf(arrivals, gets[|gets| - 1]) + pauses[|gets| - 1]
  }

  /** Each read begins when the one before is over and its yield consumed, and looks for the first event not taken; and
      it has come to an end. */
  ghost predicate Chained(start: real, arrivals: seq<Arrival>, pauses: seq<real>, gets: seq<Get>) {
    && |gets| <= |pauses|
    && (gets == [] ||
        var init, last := gets[..|gets| - 1], gets[|gets| - 1];
        && Chained(start, arrivals, pauses, init)
        && last.at == Clock(start, arrivals, pauses, init) && last.ahead == Consumed(init)
        && (last.result.None? ==> last.limit.Some?))
  }

  ghost predicate Recorded(start: real, arrivals: seq<Arrival>, pauses: seq<real>, gets: seq<Get>, out: seq<Yield>,
                           taken: nat, now: real) {
    && Chained(start, arrivals, pauses, gets)
    && out == Yielded(gets) && taken == Consumed(gets) && now == Clock(start, arrivals, pauses, gets)
  }

  lemma RecordedSnoc(start: real, arrivals: seq<Arrival>, pauses: seq<real>, gets: seq<Get>, out: seq<Yield>,
                     taken: nat, now: real, r: Get)
    requires Recorded(start, arrivals, pauses, gets, out, taken, now) && |gets| < |pauses|
    requires r.at == now && r.ahead == taken && (r.result.None? ==> r.limit.Some?)
    ensures var later := EndOf(arrivals, r) + pauses[|gets|];
            match r.result
            case Some(Item(e)) => Recorded(start, arrivals, pauses, gets + [r], out + [Item(e)], taken + 1, later)
            case Some(Heartbeat) => Recorded(start, arrivals, pauses, gets + [r], out + [Heartbeat], taken, later)
            case None => Recorded(start, arrivals, pauses, gets + [r], out, taken, later)
  {
    assert (gets + [r])[..|gets|] == gets;
  }

  lemma ReadsPrefix(arrivals: seq<Arrival>, deadline: Option<real>, heartbeat: Option<real>, gets: seq<Get>)
    requires ReadsOk(arrivals, deadline, heartbeat, gets) && gets != []
    ensures ReadsOk(arrivals, deadline, heartbeat, gets[..|gets| - 1])
    ensures GetOk(arrivals, deadline, heartbeat, gets[|gets| - 1])
  {
  }

  lemma {:induction false} RecordPrefix(start: real, deadline: Option<real>, heartbeat: Option<real>,
                                        arrivals: seq<Arrival>, pauses: seq<real>, gets: seq<Get>, m: nat)
    requires Chained(start, arrivals, pauses, gets) && ReadsOk(arrivals, deadline, heartbeat, gets) && m <= |gets|
    ensures Chained(start, arrivals, pauses, gets[..m]) && ReadsOk(arrivals, deadline, heartbeat, gets[..m])
    decreases |gets|
  {
    if m == |gets| {
      assert gets[..m] == gets;
    } else {
      ReadsPrefix(arrivals, deadline, heartbeat, gets);
      RecordPrefix(start, deadline, heartbeat, arrivals, pauses, gets[..|gets| - 1], m);
      assert gets[..|gets| - 1][..m] == gets[..m];
    }
  }

  lemma {:induction false} SameLengthSameRun(start: real, deadline: Option<real>, heartbeat: Option<real>,
                                             arrivals: seq<Arrival>, pauses: seq<real>, a: seq<Get>, b: seq<Get>)
    requires Chained(start, arrivals, pauses, a) && Chained(start, arrivals, pauses, b) && |a| == |b|
    requires ReadsOk(arrivals, deadline, heartbeat, a) && ReadsOk(arrivals, deadline, heartbeat, b)
    ensures a == b
  {
    if a != [] {
      var n := |a| - 1;
      ReadsPrefix(arrivals, deadline, heartbeat, a);
      ReadsPrefix(arrivals, deadline, heartbeat, b);
      SameLengthSameRun(start, deadline, heartbeat, arrivals, pauses, a[..n], b[..n]);
      SameRead(arrivals, deadline, heartbeat, a[n], b[n]);
      assert a == a[..n] + [a[n]] && b == b[..n] + [b[n]];
    }
  }

  /** So a run is settled by what arrives and how long the consumer takes: of two records the shorter begins the longer. */
  lemma RunIsSettled(start: real, deadline: Option<real>, heartbeat: Option<real>, arrivals: seq<Arrival>,
                     pauses: seq<real>, a: seq<Get>, b: seq<Get>)
    requires Chained(start, arrivals, pauses, a) && Chained(start, arrivals, pauses, b) && |a| <= |b|
    requires ReadsOk(arrivals, deadline, heartbeat, a) && ReadsOk(arrivals, deadline, heartbeat, b)
    ensures a == b[..|a|]
  {
    RecordPrefix(start, deadline, heartbeat, arrivals, pauses, b, |a|);
    SameLengthSameRun(start, deadline, heartbeat, arrivals, pauses, a, b[..|a|]);
  }

  lemma SameRead(arrivals: seq<Arrival>, deadline: Option<real>, heartbeat: Option<real>, x: Get, y: Get)
    requires GetOk(arrivals, deadline, heartbeat, x) && GetOk(arrivals, deadline, heartbeat, y)
    requires x.at == y.at && x.ahead == y.ahead
    ensures x == y
  {
  }

  // ---- What came out -----------------------------------------------------------------------------------------

  /** The items are the events taken, in order, and so many of the rest are heartbeats. */
  ghost predicate OutOk(arrivals: seq<Arrival>, out: seq<Yield>, taken: nat, beats: nat) {
    taken <= |arrivals| && Items(out) == Events(arrivals[..taken]) && Heartbeats(out) == beats
  }

  lemma ItemOut(arrivals: seq<Arrival>, out: seq<Yield>, taken: nat, beats: nat)
    requires OutOk(arrivals, out, taken, beats) && taken < |arrivals|
    ensures OutOk(arrivals, out + [Item(arrivals[taken].event)], taken + 1, beats)
  {
  }

  lemma HeartbeatOut(arrivals: seq<Arrival>, out: seq<Yield>, taken: nat, beats: nat)
    requires OutOk(arrivals, out, taken, beats)
    ensures OutOk(arrivals, out + [Heartbeat], taken, beats + 1)
  {
  }

  // ---- The clock -------------------------------------------------------------------------------------------

  /** After so many heartbeats and silent timeouts: a capped stream that is still alive has spent an interval on each
      heartbeat, and without heartbeats only the deadline ends a silent wait. */
  predicate TimeOk(start: real, timeout: Option<real>, heartbeat: Option<real>, now: real, beats: nat, silent: nat) {
    && now >= start
    && (heartbeat.None? ==> beats == 0)
    && (heartbeat.Some? ==> silent == 0)
    && (silent > 0 && timeout.Some? ==> silent == 1 && now >= start + timeout.value)
    && (timeout.Some? && heartbeat.Some? ==>
          now >= start + timeout.value || now >= start + Times(beats, heartbeat.value))
    && (timeout.Some? && heartbeat.Some? && beats > 0 ==> Times(beats - 1, heartbeat.value) < timeout.value)
  }

  lemma LaterIsOk(start: real, timeout: Option<real>, heartbeat: Option<real>, now: real, later: real, beats: nat,
                  silent: nat)
    requires TimeOk(start, timeout, heartbeat, now, beats, silent) && now <= later
    ensures TimeOk(start, timeout, heartbeat, later, beats, silent)
  {
  }

  function Deadline(start: real, timeout: Option<real>): Option<real> {
    if timeout.Some? then Some(start + timeout.value) else None
  }

  lemma TimedOutIsOk(start: real, timeout: Option<real>, heartbeat: Option<real>, now: real, beats: nat, silent: nat)
    requires TimeOk(start, timeout, heartbeat, now, beats, silent)
    requires timeout.Some? ==> now < start + timeout.value
    requires (heartbeat.Some? ==> heartbeat.value > 0.0) && Limit(Deadline(start, timeout), heartbeat, now).Some?
    ensures var later := now + Limit(Deadline(start, timeout), heartbeat, now).value;
            TimeOk(start, timeout, heartbeat, later, if heartbeat.Some? then beats + 1 else beats,
                   if heartbeat.Some? then silent else silent + 1)
  {
  }

  /** Nothing that is still in the queue came in before `now`: so with a consumer that takes no time. */
  ghost predicate UpToDate(start: real, arrivals: seq<Arrival>, now: real, taken: nat) {
    now == start || forall j | taken <= j < |arrivals| :: arrivals[j].at >= now
  }

  lemma ItemIsUpToDate(start: real, arrivals: seq<Arrival>, now: real, taken: nat)
    requires UpToDate(start, arrivals, now, taken) && InOrder(arrivals) && taken < |arrivals|
    ensures UpToDate(start, arrivals, if arrivals[taken].at > now then arrivals[taken].at else now, taken + 1)
  {
  }

  lemma SilenceIsUpToDate(start: real, arrivals: seq<Arrival>, r: Get)
    requires InOrder(arrivals) && !Due(arrivals, r) && r.limit.Some?
    ensures UpToDate(start, arrivals, r.at + r.limit.value, r.ahead)
  {
  }

  ghost predicate NoPauses(pauses: seq<real>) {
    forall k | 0 <= k < |pauses| :: pauses[k] == 0.0
  }

  /** How many reads timed out without a yield. */
  function Silent(gets: seq<Get>): nat {
    if gets == [] then 0 else Silent(gets[..|gets| - 1]) + if gets[|gets| - 1].result.None? then 1 else 0
  }

  /** What holds after any number of reads. */
  ghost predicate SoFar(start: real, timeout: Option<real>, heartbeat: Option<real>, arrivals: seq<Arrival>,
                        pauses: seq<real>, gets: seq<Get>)
    requires |gets| <= |pauses|
  {
    var beats, now := Heartbeats(Yielded(gets)), Clock(start, arrivals, pauses, gets);
    && OutOk(arrivals, Yielded(gets), Consumed(gets), beats)
    && |gets| == Consumed(gets) + beats + Silent(gets)
    && TimeOk(start, timeout, heartbeat, now, beats, Silent(gets))
    && (NoPauses(pauses) ==> UpToDate(start, arrivals, now, Consumed(gets)))
  }

  /** One more read: an event, a heartbeat, or nothing. */
  lemma OneMoreRead(start: real, timeout: Option<real>, heartbeat: Option<real>, arrivals: seq<Arrival>,
                    pauses: seq<real>, gets: seq<Get>, now: real, r: Get)
    requires (heartbeat.Some? ==> heartbeat.value > 0.0) && InOrder(arrivals)
    requires r.at == now && r.ahead == Consumed(gets) && (r.result.None? ==> r.limit.Some?)
    requires GetOk(arrivals, Deadline(start, timeout), heartbeat, r)
    requires TimeOk(start, timeout, heartbeat, now, Heartbeats(Yielded(gets)), Silent(gets))
    ensures TimeOk(start, timeout, heartbeat, EndOf(arrivals, r),
                   Heartbeats(Yielded(gets)) + (if r.result == Some(Heartbeat) then 1 else 0),
                   Silent(gets) + (if r.result.None? then 1 else 0))
    ensures UpToDate(start, arrivals, now, Consumed(gets)) ==>
              UpToDate(start, arrivals, EndOf(arrivals, r),
                       Consumed(gets) + (if r.result.Some? && r.result.value.Item? then 1 else 0))
  {
    var beats, silent := Heartbeats(Yielded(gets)), Silent(gets);
    match r.result
    case Some(Item(event)) =>
      LaterIsOk(start, timeout, heartbeat, now, EndOf(arrivals, r), beats, silent);
      if UpToDate(start, arrivals, now, Consumed(gets)) {
        ItemIsUpToDate(start, arrivals, now, Consumed(gets));
      }
    case _ =>
      SilenceIsUpToDate(start, arrivals, r);
      LimitIsSettled(start, timeout, heartbeat, r);
      TimedOutIsOk(start, timeout, heartbeat, now, beats, silent);
  }

  lemma LimitIsSettled(start: real, timeout: Option<real>, heartbeat: Option<real>, r: Get)
    requires heartbeat.Some? ==> heartbeat.value > 0.0
    requires r.limit.Some? && (timeout.Some? ==> r.at < start + timeout.value && r.at + r.limit.value <= start + timeout.value)
    requires heartbeat.Some? ==> r.limit.value <= heartbeat.value
    requires Some(r.limit.value) == heartbeat || Some(r.at + r.limit.value) == Deadline(start, timeout)
    ensures r.limit == Limit(Deadline(start, timeout), heartbeat, r.at)
  {
  }

  lemma OneMoreYield(arrivals: seq<Arrival>, deadline: Option<real>, heartbeat: Option<real>, gets: seq<Get>, r: Get)
    requires OutOk(arrivals, Yielded(gets), Consumed(gets), Heartbeats(Yielded(gets)))
    requires r.ahead == Consumed(gets) && GetOk(arrivals, deadline, heartbeat, r)
    ensures var after := gets + [r];
            && OutOk(arrivals, Yielded(after), Consumed(after), Heartbeats(Yielded(after)))
            && Heartbeats(Yielded(after)) == Heartbeats(Yielded(gets)) + (if r.result == Some(Heartbeat) then 1 else 0)
            && Consumed(after) == Consumed(gets) + (if r.result.Some? && r.result.value.Item? then 1 else 0)
            && Silent(after) == Silent(gets) + (if r.result.None? then 1 else 0)
  {
    var after := gets + [r];
    assert after[..|gets|] == gets;
    match r.result
    case Some(Item(event)) => ItemOut(arrivals, Yielded(gets), Consumed(gets), Heartbeats(Yielded(gets)));
    case Some(Heartbeat) => HeartbeatOut(arrivals, Yielded(gets), Consumed(gets), Heartbeats(Yielded(gets)));
    case None => assert Yielded(after) == Yielded(gets);
  }

  lemma {:induction false} RecordIsOk(start: real, timeout: Option<real>, heartbeat: Option<real>, arrivals: seq<Arrival>,
                                      pauses: seq<real>, gets: seq<Get>)
    requires (heartbeat.Some? ==> heartbeat.value > 0.0) && InOrder(arrivals)
    requires forall k | 0 <= k < |pauses| :: pauses[k] >= 0.0
    requires Chained(start, arrivals, pauses, gets) && ReadsOk(arrivals, Deadline(start, timeout), heartbeat, gets)
    ensures SoFar(start, timeout, heartbeat, arrivals, pauses, gets)
  {
    if gets != [] {
      var n := |gets| - 1;
      var init, r := gets[..n], gets[n];
      assert gets == init + [r];
      RecordIsOk(start, timeout, heartbeat, arrivals, pauses, init);
      var now, beats, silent := r.at, Heartbeats(Yielded(gets)), Silent(gets);
      OneMoreRead(start, timeout, heartbeat, arrivals, pauses, init, now, r);
      OneMoreYield(arrivals, Deadline(start, timeout), heartbeat, init, r);
      LaterIsOk(start, timeout, heartbeat, EndOf(arrivals, r), EndOf(arrivals, r) + pauses[n], beats, silent);
    }
  }

  /** What a record says of the stream. */
  lemma ReadOff(start: real, timeout: Option<real>, heartbeat: Option<real>, arrivals: seq<Arrival>, pauses: seq<real>,
                gets: seq<Get>, out: seq<Yield>, taken: nat, now: real)
    requires (heartbeat.Some? ==> heartbeat.value > 0.0) && InOrder(arrivals)
    requires forall k | 0 <= k < |pauses| :: pauses[k] >= 0.0
    requires Recorded(start, arrivals, pauses, gets, out, taken, now)
    requires ReadsOk(arrivals, Deadline(start, timeout), heartbeat, gets)
    ensures taken <= |arrivals| && Items(out) == Events(arrivals[..taken])
    ensures heartbeat.None? ==> Heartbeats(out) == 0
    ensures timeout.Some? && heartbeat.Some? && Heartbeats(out) > 0 ==>
              Times(Heartbeats(out) - 1, heartbeat.value) < timeout.value
    ensures timeout.Some? ==> |gets| <= taken + Heartbeats(out) + 1
    ensures NoPauses(pauses) && timeout.Some? && timeout.value > 0.0 && now >= start + timeout.value ==>
              forall j | 0 <= j < |arrivals| :: arrivals[j].at < start + timeout.value ==> j < taken
  {
    RecordIsOk(start, timeout, heartbeat, arrivals, pauses, gets);
  }

  /** `iter_events`: `pauses[k]` is the time the consumer and the scheduler take after the k-th read, and the
      flag is set before the `closedFrom`-th check. */
  method IterEvents(start: real, timeout: Option<real>, heartbeat: Option<real>, arrivals: seq<Arrival>,
                    pauses: seq<real>, closedFrom: nat)
    returns (out: seq<Yield>, gets: seq<Get>, taken: nat, ended: Ending, now: real)
    requires heartbeat.Some? ==> heartbeat.value > 0.0
    requires InOrder(arrivals)
    requires forall k | 0 <= k < |pauses| :: pauses[k] >= 0.0
    ensures taken <= |arrivals| && Items(out) == Events(arrivals[..taken])
    ensures ReadsOk(arrivals, Deadline(start, timeout), heartbeat, gets)
    ensures ended == Expired ==> timeout.Some? && now >= start + timeout.value
    ensures Recorded(start, arrivals, pauses, gets, out, taken, now) && |gets| <= closedFrom
    ensures ended == Closed <==> |gets| == closedFrom
    ensures ended == Observed ==> |gets| == |pauses| && (timeout.Some? ==> now < start + timeout.value)
    ensures ended == Blocked ==> timeout.None? && heartbeat.None? && taken == |arrivals|
    ensures heartbeat.None? ==> Heartbeats(out) == 0
    ensures timeout.Some? && heartbeat.Some? && Heartbeats(out) > 0 ==>
              Times(Heartbeats(out) - 1, heartbeat.value) < timeout.value
    ensures ended == Observed && timeout.Some? ==> |pauses| <= taken + Heartbeats(out) + 1
    ensures ended == Expired && NoPauses(pauses) && timeout.value > 0.0 ==>
              forall j | 0 <= j < |arrivals| :: arrivals[j].at < start + timeout.value ==> j < taken
  {
    var deadline := Deadline(start, timeout);
    out, gets, taken, now := [], [], 0, start;
    ended := Closed;
    while |gets| < closedFrom
      invariant |gets| <= |pauses| && |gets| <= closedFrom && taken <= |arrivals| && ended == Closed
      invariant Recorded(start, arrivals, pauses, gets, out, taken, now)
      invariant ReadsOk(arrivals, deadline, heartbeat, gets)
      decreases |pauses| - |gets|
    {
      if deadline.Some? && now >= deadline.value {
        ended := Expired;
        break;
      }
      if |gets| == |pauses| {
        ended := Observed;
        break;
      }
      var get := Read(arrivals, deadline, heartbeat, now, taken);
      if get.result.None? && get.limit.None? {
        ended := Blocked;
        break;
      }
      RecordedSnoc(start, arrivals, pauses, gets, out, taken, now, get);
      ReadsSnoc(arrivals, deadline, heartbeat, gets, get);
      match get.result {
        case Some(Item(event)) =>
          now := if arrivals[taken].at > now then arrivals[taken].at else now;
          taken, out := taken + 1, out + [Item(event)];
        case Some(Heartbeat) =>
          now, out := now + get.limit.value, out + [Heartbeat];
        case None =>
          now := now + get.limit.value;
      }
      now := now + pauses[|gets|];
      gets := gets + [get];
    }
    ReadOff(start, timeout, heartbeat, arrivals, pauses, gets, out, taken, now);
  }

  // ---- The cap ---------------------------------------------------------------------------------------------

  lemma {:induction false} TimesGrows(m: nat, n: nat, interval: real)
    requires m <= n && interval > 0.0
    ensures Times(m, interval) <= Times(n, interval)
    decreases n
  {
    if m < n {
      TimesGrows(m, n - 1, interval);
    }
  }

  /** `most` intervals, and no fewer, fill the cap: the cap divided by the interval, rounded up. */
  ghost predicate RoundedUp(most: nat, cap: real, interval: real) {
    cap <= Times(most, interval) && (most > 0 ==> Times(most - 1, interval) < cap)
  }

  /** That is one number, and in terms of products. */
  lemma RoundedUpIsExact(most: nat, other: nat, cap: real, interval: real)
    requires interval > 0.0 && RoundedUp(most, cap, interval)
    ensures RoundedUp(other, cap, interval) <==> other == most
    ensures cap <= most as real * interval && (most > 0 ==> (most - 1) as real * interval < cap)
  {
    TimesIsProduct(most, interval);
    if most > 0 {
      TimesIsProduct(most - 1, interval);
    }
    if other < most {
      TimesGrows(other, most - 1, interval);
    } else if most < other {
      TimesGrows(most, other - 1, interval);
    }
  }

  /** Heartbeats of which the last began before the cap are no more than fill it. */
  lemma HeartbeatsAreBounded(n: nat, most: nat, cap: real, interval: real)
    requires interval > 0.0 && cap <= Times(most, interval)
    requires n > 0 ==> Times(n - 1, interval) < cap
    ensures n <= most
  {
    if n > most {
      TimesGrows(most, n - 1, interval);
    }
  }

  /** A capped stream with heartbeats: it yields at most as many of them as fill the cap, whatever arrives; and it ends:
      every possible run longer than one turn per event, one per heartbeat and two to notice the deadline has
      returned. */
  method CappedStream(start: real, timeout: real, heartbeat: real, arrivals: seq<Arrival>, pauses: seq<real>,
                      closedFrom: nat, ghost most: nat)
    returns (out: seq<Yield>, taken: nat, ended: Ending)
    requires heartbeat > 0.0 && InOrder(arrivals) && RoundedUp(most, timeout, heartbeat)
    requires forall k | 0 <= k < |pauses| :: pauses[k] >= 0.0
    ensures taken <= |arrivals| && Items(out) == Events(arrivals[..taken])
    ensures Heartbeats(out) <= most
    ensures |pauses| > |arrivals| + most + 1 ==> ended == Expired || ended == Closed
  {
    var gets, now;
    out, gets, taken, ended, now := IterEvents(start, Some(timeout), Some(heartbeat), arrivals, pauses, closedFrom);
    HeartbeatsAreBounded(Heartbeats(out), most, timeout, heartbeat);
  }
}
