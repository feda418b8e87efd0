/**
 * The sliding window: the arrival times of the deauthentication frames of
 * the current cycle, oldest first. Times are whole seconds; `window` is the
 * configured duration.
 */
module SlidingWindow {

  /** Arrival order is time order. */
  ghost predicate NonDecreasing(s: seq<int>) {
    forall i, j :: 0 <= i < j < |s| ==> s[i] <= s[j]
  }

  /** Arrival order is time order, checked one neighbouring pair at a time
      from the newest end; OrderedIsNonDecreasing proves it the same as
      NonDecreasing. */
  ghost predicate Ordered(s: seq<int>)
    decreases |s|
  {
    |s| <= 1 || (s[|s| - 2] <= s[|s| - 1] && Ordered(s[..|s| - 1]))
  }

  /** Neighbouring pairs in order is the same as every pair in order. */
  lemma {:induction false} OrderedIsNonDecreasing(s: seq<int>)
    ensures Ordered(s) <==> NonDecreasing(s)
    decreases |s|
  {
    if |s| > 1 {
      var init := s[..|s| - 1];
      OrderedIsNonDecreasing(init);
      assert forall i :: 0 <= i < |init| ==> init[i] == s[i];
      if Ordered(s) {
        forall i, j | 0 <= i < j < |s| ensures s[i] <= s[j] {
          if j == |s| - 1 && i < |s| - 2 {
            assert init[i] <= init[|s| - 2];
          } else if j < |s| - 1 {
            assert init[i] <= init[j];
          }
        }
      }
    }
  }

  /** How many entries the eviction loop pops from the front at time `now`;
      StaleSpec says which. */
  function Stale(s: seq<int>, now: int, window: nat): (k: nat)
    ensures k <= |s|
  {
    StaleFrom(s, 0, now, window)
  }

  /** The scan behind Stale, started at position `from`. */
  function StaleFrom(s: seq<int>, from: nat, now: int, window: nat): (k: nat)
    requires from <= |s|
    ensures from <= k <= |s|
    decreases |s| - from
  {
    if from < |s| && now - s[from] > window then StaleFrom(s, from + 1, now, window) else from
  }

  /** The scan from `from` passes only entries more than `window` seconds
      old, and stops at the first one that is not. */
  lemma {:induction false} StaleFromScan(s: seq<int>, from: nat, now: int, window: nat)
    requires from <= |s|
    ensures forall i :: from <= i < StaleFrom(s, from, now, window) ==> now - s[i] > window
    ensures StaleFrom(s, from, now, window) < |s| ==> now - s[StaleFrom(s, from, now, window)] <= window
    decreases |s| - from
  {
    if from < |s| && now - s[from] > window {
      StaleFromScan(s, from + 1, now, window);
    }
  }

  /** Every popped entry is more than `window` seconds old, and the entry
      that stops the loop (if any) is not, so an entry exactly `window`
      seconds old stays. */
  lemma StaleSpec(s: seq<int>, now: int, window: nat)
    ensures forall i :: 0 <= i < Stale(s, now, window) ==> now - s[i] > window
    ensures Stale(s, now, window) < |s| ==> now - s[Stale(s, now, window)] <= window
  {
    StaleFromScan(s, 0, now, window);
  }

  /** The window after the eviction loop: what is left behind the popped
      entries, in its original order. */
  function Evicted(s: seq<int>, now: int, window: nat): seq<int> {
    s[Stale(s, now, window)..]
  }

  /** Eviction only removes from the front: what remains is a suffix of the
      window in its original order, and its front entry, if any, is at most
      `window` seconds old. */
  lemma EvictedSuffix(s: seq<int>, now: int, window: nat)
    ensures |Evicted(s, now, window)| <= |s|
    ensures Evicted(s, now, window) == s[|s| - |Evicted(s, now, window)|..]
    ensures Evicted(s, now, window) != [] ==> now - Evicted(s, now, window)[0] <= window
  {
    StaleSpec(s, now, window);
  }

  /** Reference definition: the entries of `s` at most `window` seconds old,
      in order, wherever they stand. */
  function Within(s: seq<int>, now: int, window: nat): (r: seq<int>)
    ensures |r| <= |s|
    decreases |s|
  {
    if s == [] then []
    else (if now - s[0] <= window then [s[0]] else []) + Within(s[1..], now, window)
  }

  /** The reference filter keeps a time exactly when it is in `s` and at most
      `window` seconds old. */
  lemma {:induction false} WithinMembers(s: seq<int>, now: int, window: nat)
    ensures forall t :: t in Within(s, now, window) <==> t in s && now - t <= window
    decreases |s|
  {
    if s != [] {
      WithinMembers(s[1..], now, window);
      assert s == [s[0]] + s[1..];
    }
  }

  /** With arrivals in time order, every entry that survives eviction is at
      most `window` seconds old, and the window stays in time order. */
  lemma EvictedRecent(s: seq<int>, now: int, window: nat)
    requires NonDecreasing(s)
    ensures NonDecreasing(Evicted(s, now, window))
    ensures forall i :: 0 <= i < |Evicted(s, now, window)| ==> now - Evicted(s, now, window)[i] <= window
  {
    var k := Stale(s, now, window);
    var r := s[k..];
    StaleSpec(s, now, window);
    forall i | 0 <= i < |r| ensures now - r[i] <= window {
      assert s[k] <= s[k + i];
    }
  }

  /** Appending a time no earlier than the last keeps the window in time order. */
  lemma AppendNonDecreasing(s: seq<int>, t: int)
    requires NonDecreasing(s)
    requires s != [] ==> s[|s| - 1] <= t
    ensures NonDecreasing(s + [t])
  {
    var r := s + [t];
    forall i, j | 0 <= i < j < |r| ensures r[i] <= r[j] {
      if j == |s| && i < |s| - 1 {
        assert s[i] <= s[|s| - 1];
      }
    }
  }

  /** Eviction never removes the newest entry unless it removes them all. */
  lemma EvictedKeepsNewest(s: seq<int>, now: int, window: nat)
    ensures Evicted(s, now, window) != [] ==>
              Evicted(s, now, window)[|Evicted(s, now, window)| - 1] == s[|s| - 1]
  {
  }

  /** Evicting twice at the same time removes nothing the second time. */
  lemma EvictedIdempotent(s: seq<int>, now: int, window: nat)
    ensures Evicted(Evicted(s, now, window), now, window) == Evicted(s, now, window)
  {
    var r := Evicted(s, now, window);
    EvictedSuffix(s, now, window);
  }

  /** An entry exactly `window` seconds old at the front is not evicted: the
      comparison is strict. */
  lemma BoundaryKept(s: seq<int>, now: int, window: nat)
    requires s != [] && now - s[0] == window
    ensures Evicted(s, now, window) == s
  {
  }

  /** If every entry is recent, the reference filter keeps them all. */
  lemma {:induction false} WithinAll(s: seq<int>, now: int, window: nat)
    requires forall i :: 0 <= i < |s| ==> now - s[i] <= window
    ensures Within(s, now, window) == s
    decreases |s|
  {
    if s != [] {
      WithinAll(s[1..], now, window);
    }
  }

  /** With arrivals in time order, evicting from the front keeps exactly the
      recent entries: the count the detector reads is the number of
      deauthentication frames in the last `window` seconds. */
  lemma EvictedIsWithin(s: seq<int>, now: int, window: nat)
    requires NonDecreasing(s)
    ensures Evicted(s, now, window) == Within(s, now, window)
  {
    ScanIsWithin(s, 0, now, window);
    assert s[0..] == s;
  }

  /** EvictedIsWithin for the scan started at `from`. */
  lemma {:induction false} ScanIsWithin(s: seq<int>, from: nat, now: int, window: nat)
    requires NonDecreasing(s) && from <= |s|
    ensures s[StaleFrom(s, from, now, window)..] == Within(s[from..], now, window)
    decreases |s| - from
  {
    if from < |s| {
      var t := s[from..];
      assert t[0] == s[from] && t[1..] == s[from + 1..];
      if now - s[from] > window {
        ScanIsWithin(s, from + 1, now, window);
      } else {
        forall i | 0 <= i < |t| ensures now - t[i] <= window {
          assert s[from] <= s[from + i];
        }
        WithinAll(t, now, window);
      }
    }
  }
}
