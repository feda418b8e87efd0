/**
 * The attacker tally: how many deauthentication frames each source address
 * sent in the current detection cycle.
 *
 * The source keeps a dictionary from address to count. A dictionary iterates
 * in insertion order, and that order decides ties when the top sources are
 * reported, so the model keeps it explicitly: `counts` holds the numbers and
 * `seen` lists the addresses in the order they were first recorded.
 */
module Tally {

  /** The dictionary and its insertion order agree: every listed address is a
      key, every key is listed once, and a key is only ever created by a
      frame, so its count is at least one. */
  ghost predicate WellFormed(counts: map<string, nat>, seen: seq<string>) {
    && Distinct(seen)
    && (forall k :: k in counts <==> k in seen)
    && (forall k :: k in counts ==> counts[k] >= 1)
  }

  /** No address is listed twice: the newest one is not among the earlier
      ones, and so on back to the first. */
  ghost predicate Distinct(seen: seq<string>)
    decreases |seen|
  {
    |seen| == 0 || (seen[|seen| - 1] !in seen[..|seen| - 1] && Distinct(seen[..|seen| - 1]))
  }

  /** Distinct lists each address at one position only. */
  lemma {:induction false} DistinctPairs(seen: seq<string>)
    ensures Distinct(seen) <==> forall i, j :: 0 <= i < j < |seen| ==> seen[i] != seen[j]
    decreases |seen|
  {
    if seen != [] {
      var init := seen[..|seen| - 1];
      DistinctPairs(init);
      assert forall i :: 0 <= i < |init| ==> init[i] == seen[i];
      if forall i, j :: 0 <= i < j < |seen| ==> seen[i] != seen[j] {
        assert seen[|seen| - 1] !in init by {
          forall i | 0 <= i < |init| ensures init[i] != seen[|seen| - 1] {
            assert seen[i] != seen[|seen| - 1];
          }
        }
      }
    }
  }

  /** The count of `mac`, zero for an address not in the tally. */
  function Get(counts: map<string, nat>, mac: string): nat {
    if mac in counts then counts[mac] else 0
  }

  /** The tally after one more frame from `mac`. */
  function Bumped(counts: map<string, nat>, mac: string): map<string, nat> {
    counts[mac := Get(counts, mac) + 1]
  }

  /** After one more frame from `mac`, `mac` is a key whose count is one more
      than before (one if it is new), and every other key keeps its count. */
  lemma BumpedSpec(counts: map<string, nat>, mac: string)
    ensures Bumped(counts, mac).Keys == counts.Keys + {mac}
    ensures Bumped(counts, mac)[mac] == Get(counts, mac) + 1
    ensures mac !in counts ==> Bumped(counts, mac)[mac] == 1
    ensures forall k :: k in counts && k != mac ==> Bumped(counts, mac)[k] == counts[k]
  {
  }

  /** The insertion order after one more frame from `mac`. */
  function Noted(seen: seq<string>, mac: string): seq<string> {
    if mac in seen then seen else seen + [mac]
  }

  /** After one more frame from `mac`, the addresses already listed keep
      their places and `mac` is listed: a new address goes at the end, and a
      known one does not move. */
  lemma NotedSpec(seen: seq<string>, mac: string)
    ensures seen <= Noted(seen, mac) && mac in Noted(seen, mac)
    ensures mac !in seen ==> |Noted(seen, mac)| == |seen| + 1 && Noted(seen, mac)[|seen|] == mac
    ensures mac in seen ==> Noted(seen, mac) == seen
  {
  }

  /** The sum of the counts of the listed addresses. */
  function Sum(counts: map<string, nat>, seen: seq<string>): nat
    decreases |seen|
  {
    if seen == [] then 0 else Sum(counts, seen[..|seen| - 1]) + Get(counts, seen[|seen| - 1])
  }

  /** Changing the count of an address that is not listed leaves the sum alone. */
  lemma {:induction false} SumIgnoresUnlisted(counts: map<string, nat>, seen: seq<string>, k: string, v: nat)
    requires k !in seen
    ensures Sum(counts[k := v], seen) == Sum(counts, seen)
  {
    if seen != [] {
      var init := seen[..|seen| - 1];
      assert forall x :: x in init ==> x in seen;
      SumIgnoresUnlisted(counts, init, k, v);
    }
  }

  /** Raising the count of a listed address (listed once) by one raises the
      sum by one. */
  lemma {:induction false} SumBumpListed(counts: map<string, nat>, seen: seq<string>, mac: string)
    requires forall i, j :: 0 <= i < j < |seen| ==> seen[i] != seen[j]
    requires mac in seen
    ensures Sum(Bumped(counts, mac), seen) == Sum(counts, seen) + 1
  {
    var init := seen[..|seen| - 1];
    if seen[|seen| - 1] == mac {
      assert mac !in init;
      SumIgnoresUnlisted(counts, init, mac, Get(counts, mac) + 1);
    } else {
      assert mac in init;
      SumBumpListed(counts, init, mac);
    }
  }

  /** Recording one frame keeps the tally well formed and adds exactly one to
      the total: the counts always sum to the number of frames recorded since
      the last reset. */
  lemma BumpedAddsOne(counts: map<string, nat>, seen: seq<string>, mac: string)
    requires WellFormed(counts, seen)
    ensures WellFormed(Bumped(counts, mac), Noted(seen, mac))
    ensures Sum(Bumped(counts, mac), Noted(seen, mac)) == Sum(counts, seen) + 1
  {
    if mac in seen {
      DistinctPairs(seen);
      SumBumpListed(counts, seen, mac);
      BumpedListedWellFormed(counts, seen, mac);
    } else {
      var seen' := seen + [mac];
      assert seen'[..|seen'| - 1] == seen;
      SumIgnoresUnlisted(counts, seen, mac, 1);
      BumpedNewWellFormed(counts, seen, mac);
    }
  }

  /** Another frame from a known source keeps the tally well formed. */
  lemma BumpedListedWellFormed(counts: map<string, nat>, seen: seq<string>, mac: string)
    requires WellFormed(counts, seen) && mac in seen
    ensures Noted(seen, mac) == seen
    ensures WellFormed(Bumped(counts, mac), seen)
  {
    var b := Bumped(counts, mac);
    assert b.Keys == counts.Keys;
    forall k | k in b ensures k in seen && b[k] >= 1 {
      assert k in counts;
    }
  }

  /** A frame from a new source keeps the tally well formed. */
  lemma BumpedNewWellFormed(counts: map<string, nat>, seen: seq<string>, mac: string)
    requires WellFormed(counts, seen) && mac !in seen
    ensures Noted(seen, mac) == seen + [mac] && Bumped(counts, mac)[mac] == 1
    ensures WellFormed(Bumped(counts, mac), seen + [mac])
  {
    var b := Bumped(counts, mac);
    var r := seen + [mac];
    assert r[..|seen|] == seen;
    forall i | 0 <= i < |r| ensures r[i] in b {
      if i < |seen| {
        assert r[i] == seen[i];
      }
    }
    forall k | k in b ensures k in r && b[k] >= 1 {
      if k != mac {
        assert k in counts && k in seen;
      }
    }
  }

  /** Every count is at least one, so there are never more distinct sources
      than recorded frames. */
  lemma {:induction false} SourcesAtMostSum(counts: map<string, nat>, seen: seq<string>)
    requires WellFormed(counts, seen)
    ensures |seen| <= Sum(counts, seen)
  {
    if seen != [] {
      var init := seen[..|seen| - 1];
      var last := seen[|seen| - 1];
      var rest := map k | k in counts && k != last :: counts[k];
      assert forall k :: k in init ==> k in seen && k != last;
      assert WellFormed(rest, init);
      SourcesAtMostSum(rest, init);
      SumAgrees(rest, counts, init);
    }
  }

  /** The sum only looks at the listed addresses. */
  lemma {:induction false} SumAgrees(a: map<string, nat>, b: map<string, nat>, seen: seq<string>)
    requires forall i :: 0 <= i < |seen| ==> Get(a, seen[i]) == Get(b, seen[i])
    ensures Sum(a, seen) == Sum(b, seen)
  {
    if seen != [] {
      SumAgrees(a, b, seen[..|seen| - 1]);
    }
  }
}
