/**
 * The detection state machine of the deauthentication-flood detector: one
 * step per incoming frame. A deauthentication frame is recorded in the
 * sliding window and in the attacker tally; then stale times are evicted;
 * then, if the window holds at least `threshold` frames, an alert is
 * produced and both structures are cleared to start a new detection cycle.
 *
 * Randomness and the clock are inputs: whether a frame is a deauthentication
 * frame, its source address, its arrival time `ts` and the time `now` read
 * before eviction are the parameters of `Step`.
 */
module Detector {
  import Tally
  import SlidingWindow
  import Ranking

  datatype Option<T> = None | Some(value: T)

  /** What an alert reports: the number of frames in the window, the window
      length, and the top sources of the cycle. */
  datatype Alert = Alert(count: nat, window: nat, top: seq<Ranking.Entry>)

  /** One incoming frame, with the time the detector reads after it. */
  datatype Frame = Frame(isDeauth: bool, mac: string, ts: int, now: int)

  class Detector {
    const threshold: nat
    const window: nat

    /** `deauth_times`: arrival times of the deauthentication frames, oldest first. */
    var times: seq<int>
    /** `attacker_counts`: frames per source address in this cycle ... */
    var counts: map<string, nat>
    /** ... and the order in which the addresses were first recorded. */
    var seen: seq<string>
    /** Deauthentication frames recorded since the last reset. */
    ghost var recorded: nat

    /** The counts sum to the frames recorded in this cycle; eviction has
        only ever shortened the window; the window is in time order. */
    ghost predicate Valid()
      reads this
    {
      Consistent(times, counts, seen, recorded)
    }

    /** The window and the tally, as a value. */
    function State(): Cycle
      reads this
    {
      Cycle(times, counts, seen)
    }

    constructor (threshold: nat, window: nat)
      ensures Valid()
      ensures this.threshold == threshold && this.window == window
      ensures times == [] && counts == map[] && seen == [] && recorded == 0
    {
      this.threshold := threshold;
      this.window := window;
      times, counts, seen := [], map[], [];
      recorded := 0;
    }

    /** A deauthentication frame from `mac` arriving at `ts`: its time goes
        at the back of the window and its source's count goes up by one
        (from zero if the source is new); no other count changes. */
    method RecordDeauth(mac: string, ts: int)
      requires Valid()
      requires times != [] ==> times[|times| - 1] <= ts
      modifies this
      ensures Valid()
      ensures times == old(times) + [ts]
      ensures counts == Tally.Bumped(old(counts), mac) && seen == Tally.Noted(old(seen), mac)
      ensures mac in counts && counts[mac] == Tally.Get(old(counts), mac) + 1
      ensures forall k :: k != mac ==> (k in counts <==> k in old(counts))
      ensures forall k :: k != mac && k in counts ==> counts[k] == old(counts)[k]
      ensures recorded == old(recorded) + 1
    {
      RecordKeepsConsistent(times, counts, seen, recorded, mac, ts);
      times := times + [ts];
      counts, seen := Tally.Bumped(counts, mac), Tally.Noted(seen, mac);
      recorded := recorded + 1;
    }

    /** The handling of one incoming frame before eviction: only a
        deauthentication frame is recorded; any other frame changes nothing. */
    method Ingest(isDeauth: bool, mac: string, ts: int)
      requires Valid()
      requires isDeauth && times != [] ==> times[|times| - 1] <= ts
      modifies this
      ensures Valid()
      ensures times == if isDeauth then old(times) + [ts] else old(times)
      ensures counts == if isDeauth then Tally.Bumped(old(counts), mac) else old(counts)
      ensures seen == if isDeauth then Tally.Noted(old(seen), mac) else old(seen)
      ensures recorded == old(recorded) + if isDeauth then 1 else 0
    {
      if isDeauth {
        RecordDeauth(mac, ts);
      }
    }

    /** Pop from the front while the front is more than `window` seconds
        older than `now`. The tally is not touched. */
    method Evict(now: int)
      requires Valid()
      modifies this`times
      ensures Valid()
      ensures times == SlidingWindow.Evicted(old(times), now, window)
      ensures forall i :: 0 <= i < |times| ==> now - times[i] <= window
    {
      EvictKeepsConsistent(times, counts, seen, recorded, now, window);
      SlidingWindow.StaleSpec(times, now, window);
      ghost var dropped: nat := 0;
      while times != [] && now - times[0] > window
        invariant dropped <= SlidingWindow.Stale(old(times), now, window)
        invariant times == old(times)[dropped..]
        decreases |times|
      {
        times := times[1..];
        dropped := dropped + 1;
      }
    }

    /** Start a new detection cycle. */
    method Reset()
      modifies this
      ensures Valid()
      ensures times == [] && counts == map[] && seen == [] && recorded == 0
    {
      times, counts, seen := [], map[], [];
      recorded := 0;
    }

    /** One pass of the detection loop: record, evict, check the threshold.
        The new state and the alert are exactly those of `Next`, whose
        properties NextResets, NextCountsRecent and NextNewest state. */
    method Step(isDeauth: bool, mac: string, ts: int, now: int) returns (alert: Option<Alert>)
      requires Valid()
      requires isDeauth && times != [] ==> times[|times| - 1] <= ts
      modifies this
      ensures Valid()
      ensures Outcome(State(), alert) == Next(old(State()), Frame(isDeauth, mac, ts, now), threshold, window)
    {
      Ingest(isDeauth, mac, ts);
      Evict(now);
      alert := CheckThreshold();
      StepIsNext(old(State()), Frame(isDeauth, mac, ts, now), threshold, window, State(), alert);
    }

    /** Read the count; at or above the threshold, report it with the top
        sources and start a new cycle, otherwise change nothing. */
    method CheckThreshold() returns (alert: Option<Alert>)
      requires Valid()
      modifies this
      ensures Valid()
      ensures alert.Some? <==> |old(times)| >= threshold
      ensures alert.Some? ==> alert.value == Alert(|old(times)|, window, Ranking.Top3(old(counts), old(seen)))
      ensures alert.Some? ==> times == [] && counts == map[] && seen == [] && recorded == 0
      ensures alert.None? ==> times == old(times) && counts == old(counts) && seen == old(seen) && recorded == old(recorded)
    {
      var count := |times|;
      if count >= threshold {
        alert := Some(Alert(count, window, Ranking.Top3(counts, seen)));
        Reset();
      } else {
        alert := None;
      }
    }

    /** The detection loop over a finite sequence of frames: the alerts are
        those of the successive passes, in order, and the final state is the
        state after the last pass. */
    method Run(frames: seq<Frame>) returns (alerts: seq<Alert>)
      requires Valid()
      requires Chronological(frames)
      requires times != [] ==> NotBefore(times[|times| - 1], frames, 0)
      modifies this
      ensures Valid()
      ensures Trace(State(), alerts) == Replay(old(State()), frames, threshold, window)
    {
      ghost var start := State();
      alerts := [];
      var k := 0;
      while k < |frames|
        invariant 0 <= k <= |frames| && Valid()
        invariant Trace(State(), alerts) == Replay(start, frames[..k], threshold, window)
        invariant times != [] ==> NotBefore(times[|times| - 1], frames, k)
      {
        var f := frames[k];
        assert f == Frame(f.isDeauth, f.mac, f.ts, f.now);
        ghost var before := State();
        var alert := Step(f.isDeauth, f.mac, f.ts, f.now);
        ReplayStep(start, frames, k, threshold, window, before, alerts, State(), alert);
        NextNotBefore(before, frames, k, threshold, window, State(), alert);
        alerts := alerts + if alert.Some? then [alert.value] else [];
        k := k + 1;
      }
      assert frames[..k] == frames;
    }
  }

  /** The window and the tally with its first-seen order. */
  datatype Cycle = Cycle(times: seq<int>, counts: map<string, nat>, seen: seq<string>)

  /** What one pass of the loop leaves: the next state and the alert, if any. */
  datatype Outcome = Outcome(next: Cycle, alert: Option<Alert>)

  /** What a run leaves: the final state and the alerts in order. */
  datatype Trace = Trace(last: Cycle, alerts: seq<Alert>)

  /** One pass of the loop body on values: record a deauthentication frame,
      evict at `now`, and alert and reset when the count reaches the
      threshold. */
  function Next(c: Cycle, f: Frame, threshold: nat, window: nat): Outcome {
    var pre := if f.isDeauth then c.times + [f.ts] else c.times;
    var kept := SlidingWindow.Evicted(pre, f.now, window);
    var tally := if f.isDeauth then Tally.Bumped(c.counts, f.mac) else c.counts;
    var order := if f.isDeauth then Tally.Noted(c.seen, f.mac) else c.seen;
    if |kept| >= threshold then
      Outcome(Cycle([], map[], []), Some(Alert(|kept|, window, Ranking.Top3(tally, order))))
    else
      Outcome(Cycle(kept, tally, order), None)
  }

  /** A pass either alerts, reporting at least `threshold` frames over the
      configured window and starting a new cycle with an empty window and
      tally, or leaves fewer than `threshold` times in the window. */
  lemma NextResets(c: Cycle, f: Frame, threshold: nat, window: nat)
    ensures var o := Next(c, f, threshold, window);
            && (o.alert.Some? ==>
                  threshold <= o.alert.value.count && o.alert.value.window == window && o.next == Cycle([], map[], []))
            && (o.alert.None? ==> |o.next.times| < threshold)
  {
  }

  /** With arrivals in time order, a pass alerts exactly when at least
      `threshold` of the recorded frames are at most `window` seconds old at
      `now`, and the alert reports how many there are; every time left in
      the window is at most `window` seconds old. */
  lemma NextCountsRecent(c: Cycle, f: Frame, threshold: nat, window: nat)
    requires SlidingWindow.NonDecreasing(c.times)
    requires f.isDeauth && c.times != [] ==> c.times[|c.times| - 1] <= f.ts
    ensures var o := Next(c, f, threshold, window);
            var pre := if f.isDeauth then c.times + [f.ts] else c.times;
            var recent := SlidingWindow.Within(pre, f.now, window);
            && (o.alert.Some? <==> |recent| >= threshold)
            && (o.alert.Some? ==> o.alert.value.count == |recent|)
            && (forall i :: 0 <= i < |o.next.times| ==> f.now - o.next.times[i] <= window)
  {
    var pre := if f.isDeauth then c.times + [f.ts] else c.times;
    if f.isDeauth {
      SlidingWindow.AppendNonDecreasing(c.times, f.ts);
    }
    SlidingWindow.EvictedIsWithin(pre, f.now, window);
    SlidingWindow.EvictedRecent(pre, f.now, window);
  }

  /** The state and alert left by recording, evicting and checking the
      threshold in turn, as the methods of `Detector` do, are those of
      `Next`. */
  lemma StepIsNext(c: Cycle, f: Frame, threshold: nat, window: nat, c': Cycle, alert: Option<Alert>)
    requires var pre := if f.isDeauth then c.times + [f.ts] else c.times;
             var kept := SlidingWindow.Evicted(pre, f.now, window);
             var tally := if f.isDeauth then Tally.Bumped(c.counts, f.mac) else c.counts;
             var order := if f.isDeauth then Tally.Noted(c.seen, f.mac) else c.seen;
             && (alert.Some? <==> |kept| >= threshold)
             && (alert.Some? ==>
                   && alert.value == Alert(|kept|, window, Ranking.Top3(tally, order))
                   && c' == Cycle([], map[], []))
             && (alert.None? ==> c' == Cycle(kept, tally, order))
    ensures Outcome(c', alert) == Next(c, f, threshold, window)
  {
  }

  /** The newest time left after a pass is the frame's own when it is a
      deauthentication frame, and otherwise the newest time before it. */
  lemma NextNewest(c: Cycle, f: Frame, threshold: nat, window: nat)
    ensures var t := Next(c, f, threshold, window).next.times;
            t != [] ==>
              if f.isDeauth then t[|t| - 1] == f.ts
              else c.times != [] && t[|t| - 1] == c.times[|c.times| - 1]
  {
    var pre := if f.isDeauth then c.times + [f.ts] else c.times;
    SlidingWindow.EvictedKeepsNewest(pre, f.now, window);
  }

  /** With deauthentication frames in time order, the newest time left after
      the pass for frame k is no later than any later deauthentication frame. */
  lemma NextNotBefore(c: Cycle, frames: seq<Frame>, k: nat, threshold: nat, window: nat, after: Cycle, alert: Option<Alert>)
    requires k < |frames| && Chronological(frames)
    requires c.times != [] ==> NotBefore(c.times[|c.times| - 1], frames, k)
    requires Outcome(after, alert) == Next(c, frames[k], threshold, window)
    ensures after.times != [] ==> NotBefore(after.times[|after.times| - 1], frames, k + 1)
  {
    NextNewest(c, frames[k], threshold, window);
  }

  /** The loop over a finite sequence of frames, one pass per frame. */
  function Replay(c: Cycle, frames: seq<Frame>, threshold: nat, window: nat): Trace
    decreases |frames|
  {
    if frames == [] then Trace(c, [])
    else
      var t := Replay(c, frames[..|frames| - 1], threshold, window);
      var o := Next(t.last, frames[|frames| - 1], threshold, window);
      Trace(o.next, t.alerts + if o.alert.Some? then [o.alert.value] else [])
  }

  /** Replaying one more frame is one more pass after the replay so far. */
  lemma ReplayStep(c: Cycle, frames: seq<Frame>, k: nat, threshold: nat, window: nat,
                   before: Cycle, alerts: seq<Alert>, after: Cycle, alert: Option<Alert>)
    requires k < |frames|
    requires Trace(before, alerts) == Replay(c, frames[..k], threshold, window)
    requires Outcome(after, alert) == Next(before, frames[k], threshold, window)
    ensures Trace(after, alerts + if alert.Some? then [alert.value] else [])
            == Replay(c, frames[..k + 1], threshold, window)
  {
    assert frames[..k + 1][..k] == frames[..k];
  }

  /** A run raises at most one alert per frame; every alert reports at least
      `threshold` frames, the configured window and at most three sources. */
  lemma {:induction false} ReplayAlerts(c: Cycle, frames: seq<Frame>, threshold: nat, window: nat)
    ensures |Replay(c, frames, threshold, window).alerts| <= |frames|
    ensures forall a :: a in Replay(c, frames, threshold, window).alerts ==>
              threshold <= a.count && a.window == window && |a.top| <= Ranking.TopCount
    decreases |frames|
  {
    if frames != [] {
      ReplayAlerts(c, frames[..|frames| - 1], threshold, window);
    }
  }

  /** The state of one detection cycle in which `recorded` deauthentication
      frames have been seen: the counts sum to `recorded`, eviction has only
      ever shortened the window, and the window is in time order. */
  ghost predicate Consistent(times: seq<int>, counts: map<string, nat>, seen: seq<string>, recorded: nat) {
    && Tally.WellFormed(counts, seen)
    && Tally.Sum(counts, seen) == recorded
    && |times| <= recorded
    && SlidingWindow.Ordered(times)
  }

  /** Recording a frame that is no older than the newest one in the window
      keeps the cycle consistent, with one more frame recorded. */
  lemma RecordKeepsConsistent(times: seq<int>, counts: map<string, nat>, seen: seq<string>, recorded: nat, mac: string, ts: int)
    requires Consistent(times, counts, seen, recorded)
    requires times != [] ==> times[|times| - 1] <= ts
    ensures Consistent(times + [ts], Tally.Bumped(counts, mac), Tally.Noted(seen, mac), recorded + 1)
  {
    Tally.BumpedAddsOne(counts, seen, mac);
    SlidingWindow.OrderedIsNonDecreasing(times);
    SlidingWindow.AppendNonDecreasing(times, ts);
    SlidingWindow.OrderedIsNonDecreasing(times + [ts]);
  }

  /** Eviction keeps the cycle consistent (the tally is untouched) and leaves
      only entries at most `window` seconds old. */
  lemma EvictKeepsConsistent(times: seq<int>, counts: map<string, nat>, seen: seq<string>, recorded: nat, now: int, window: nat)
    requires Consistent(times, counts, seen, recorded)
    ensures Consistent(SlidingWindow.Evicted(times, now, window), counts, seen, recorded)
    ensures forall i :: 0 <= i < |SlidingWindow.Evicted(times, now, window)| ==>
              now - SlidingWindow.Evicted(times, now, window)[i] <= window
  {
    SlidingWindow.OrderedIsNonDecreasing(times);
    SlidingWindow.EvictedRecent(times, now, window);
    SlidingWindow.OrderedIsNonDecreasing(SlidingWindow.Evicted(times, now, window));
  }

  /** Deauthentication frames arrive in time order. */
  ghost predicate Chronological(frames: seq<Frame>) {
    forall i, j :: 0 <= i < j < |frames| && frames[i].isDeauth && frames[j].isDeauth ==> frames[i].ts <= frames[j].ts
  }

  /** No deauthentication frame in `frames[from..]` arrives before `t`. */
  ghost predicate NotBefore(t: int, frames: seq<Frame>, from: nat) {
    forall i :: from <= i < |frames| && frames[i].isDeauth ==> t <= frames[i].ts
  }
}
