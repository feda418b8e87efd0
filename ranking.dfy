/**
 * The top list of an alert: the tally entries sorted by descending count,
 * cut to the first three. The sort the source uses is stable and runs over
 * the dictionary in insertion order, so equal counts keep first-seen order.
 *
 * The model ranks positions in the insertion order: `byPosition[i]` is the count
 * of the i-th address first seen, and a ranking is a permutation of the
 * positions. Position i goes ahead of position j when its count is larger,
 * or equal and i was seen first.
 */
module Ranking {
  import Tally

  /** One line of the top list: an address and its count. */
  datatype Entry = Entry(mac: string, count: nat)

  /** How many sources an alert reports. */
  const TopCount: nat := 3

  predicate Positions(byPosition: seq<nat>, s: seq<nat>) {
    forall p :: 0 <= p < |s| ==> s[p] < |byPosition|
  }

  /** Descending by count; ties in first-seen order. */
  predicate Ahead(byPosition: seq<nat>, i: nat, j: nat)
    requires i < |byPosition| && j < |byPosition|
  {
    byPosition[i] > byPosition[j] || (byPosition[i] == byPosition[j] && i < j)
  }

  ghost predicate RankedBy(byPosition: seq<nat>, s: seq<nat>)
    requires Positions(byPosition, s)
  {
    forall p, q :: 0 <= p < q < |s| ==> Ahead(byPosition, s[p], s[q])
  }

  /** One step of the stable sort: `i` goes before the first position whose
      count is not larger than its own. */
  function Insert(byPosition: seq<nat>, i: nat, s: seq<nat>): (r: seq<nat>)
    requires i < |byPosition| && Positions(byPosition, s)
    ensures Positions(byPosition, r) && |r| == |s| + 1
    decreases |s|
  {
    if s == [] then [i]
    else if byPosition[i] >= byPosition[s[0]] then [i] + s
    else [s[0]] + Insert(byPosition, i, s[1..])
  }

  /** The positions `lo`, ..., |byPosition| - 1, each exactly once, in ranked order. */
  function Ranked(byPosition: seq<nat>, lo: nat): (r: seq<nat>)
    requires lo <= |byPosition|
    ensures Positions(byPosition, r) && |r| == |byPosition| - lo
    decreases |byPosition| - lo
  {
    if lo == |byPosition| then [] else Insert(byPosition, lo, Ranked(byPosition, lo + 1))
  }

  /** Inserting adds `i` and loses nothing. */
  lemma {:induction false} InsertMembers(byPosition: seq<nat>, i: nat, s: seq<nat>)
    requires i < |byPosition| && Positions(byPosition, s)
    ensures forall x :: x in Insert(byPosition, i, s) <==> x == i || x in s
    decreases |s|
  {
    if s != [] && byPosition[i] < byPosition[s[0]] {
      InsertMembers(byPosition, i, s[1..]);
      assert s == [s[0]] + s[1..];
    }
  }

  /** The sort is a permutation of the positions: each of `lo`, ...,
      |byPosition| - 1 occurs (and, by the length, exactly once). */
  lemma {:induction false} RankedMembers(byPosition: seq<nat>, lo: nat)
    requires lo <= |byPosition|
    ensures forall x :: x in Ranked(byPosition, lo) <==> lo <= x < |byPosition|
    decreases |byPosition| - lo
  {
    if lo < |byPosition| {
      RankedMembers(byPosition, lo + 1);
      InsertMembers(byPosition, lo, Ranked(byPosition, lo + 1));
    }
  }

  /** Inserting a position seen before all the ranked ones keeps the ranking. */
  lemma {:induction false} InsertRanked(byPosition: seq<nat>, i: nat, s: seq<nat>)
    requires i < |byPosition| && Positions(byPosition, s) && RankedBy(byPosition, s)
    requires forall p :: 0 <= p < |s| ==> i < s[p]
    ensures RankedBy(byPosition, Insert(byPosition, i, s))
    decreases |s|
  {
    if s == [] {
    } else if byPosition[i] >= byPosition[s[0]] {
      PrependRanked(byPosition, i, s);
    } else {
      InsertRanked(byPosition, i, s[1..]);
      var t := Insert(byPosition, i, s[1..]);
      InsertMembers(byPosition, i, s[1..]);
      forall x | x in t ensures Ahead(byPosition, s[0], x) {
        if x != i {
          var q :| 0 <= q < |s[1..]| && s[1..][q] == x;
          assert Ahead(byPosition, s[0], s[q + 1]);
        }
      }
      ConsRanked(byPosition, s[0], t);
    }
  }

  /** The first case of Insert: `i` goes in front. */
  lemma PrependRanked(byPosition: seq<nat>, i: nat, s: seq<nat>)
    requires i < |byPosition| && Positions(byPosition, s) && RankedBy(byPosition, s)
    requires forall p :: 0 <= p < |s| ==> i < s[p]
    requires s != [] && byPosition[i] >= byPosition[s[0]]
    ensures RankedBy(byPosition, [i] + s)
  {
    var r := [i] + s;
    forall p, q | 0 <= p < q < |r| ensures Ahead(byPosition, r[p], r[q]) {
      if p == 0 {
        if q > 1 {
          assert Ahead(byPosition, s[0], s[q - 1]);
        }
      } else {
        assert r[p] == s[p - 1] && r[q] == s[q - 1];
      }
    }
  }

  /** A position ahead of every element of a ranking can lead it. */
  lemma ConsRanked(byPosition: seq<nat>, x: nat, t: seq<nat>)
    requires x < |byPosition| && Positions(byPosition, t) && RankedBy(byPosition, t)
    requires forall y :: y in t ==> Ahead(byPosition, x, y)
    ensures RankedBy(byPosition, [x] + t)
  {
    var r := [x] + t;
    forall p, q | 0 <= p < q < |r| ensures Ahead(byPosition, r[p], r[q]) {
      if p == 0 {
        assert r[q] == t[q - 1] && t[q - 1] in t;
      } else {
        assert r[p] == t[p - 1] && r[q] == t[q - 1];
      }
    }
  }

  /** The sort produces a ranking. */
  lemma {:induction false} RankedIsRanked(byPosition: seq<nat>, lo: nat)
    requires lo <= |byPosition|
    ensures RankedBy(byPosition, Ranked(byPosition, lo))
    decreases |byPosition| - lo
  {
    if lo < |byPosition| {
      var s := Ranked(byPosition, lo + 1);
      RankedIsRanked(byPosition, lo + 1);
      RankedMembers(byPosition, lo + 1);
      forall p | 0 <= p < |s| ensures lo < s[p] {
        assert s[p] in s;
      }
      InsertRanked(byPosition, lo, s);
    }
  }

  /** The counts of the tally listed in first-seen order, the order in
      which the dictionary yields its items. */
  function Tallies(counts: map<string, nat>, seen: seq<string>): (r: seq<nat>)
    ensures |r| == |seen|
    decreases |seen|
  {
    if seen == [] then []
    else Tallies(counts, seen[..|seen| - 1]) + [Tally.Get(counts, seen[|seen| - 1])]
  }

  /** Position i of the listing holds the count of the i-th address first
      seen. */
  lemma {:induction false} TalliesSpec(counts: map<string, nat>, seen: seq<string>)
    ensures forall i :: 0 <= i < |seen| ==> Tallies(counts, seen)[i] == Tally.Get(counts, seen[i])
    decreases |seen|
  {
    if seen != [] {
      var init := seen[..|seen| - 1];
      TalliesSpec(counts, init);
      assert forall i :: 0 <= i < |init| ==> init[i] == seen[i];
    }
  }

  /** The lines of the top list for the ranked positions `idx`: the address
      first seen at each position, with its count. */
  function Lines(counts: map<string, nat>, seen: seq<string>, idx: seq<nat>): (r: seq<Entry>)
    requires forall p :: 0 <= p < |idx| ==> idx[p] < |seen|
    ensures |r| == |idx|
    decreases |idx|
  {
    if idx == [] then []
    else
      var i := idx[|idx| - 1];
      Lines(counts, seen, idx[..|idx| - 1]) + [Entry(seen[i], Tally.Get(counts, seen[i]))]
  }

  /** Line p of the list names the address at the p-th ranked position and
      its count. */
  lemma {:induction false} LinesAt(counts: map<string, nat>, seen: seq<string>, idx: seq<nat>)
    requires forall p :: 0 <= p < |idx| ==> idx[p] < |seen|
    ensures forall p :: 0 <= p < |idx| ==>
              Lines(counts, seen, idx)[p] == Entry(seen[idx[p]], Tally.Get(counts, seen[idx[p]]))
    decreases |idx|
  {
    if idx != [] {
      var init := idx[..|idx| - 1];
      LinesAt(counts, seen, init);
      assert forall p :: 0 <= p < |init| ==> init[p] == idx[p];
    }
  }

  /** The top list: the tally entries by descending count, equal counts in
      first-seen order, cut to the first three. It has three lines, or one
      per source when there are fewer. */
  function Top3(counts: map<string, nat>, seen: seq<string>): (r: seq<Entry>)
    ensures |r| == if |seen| < TopCount then |seen| else TopCount
  {
    var idx := Ranked(Tallies(counts, seen), 0);
    var n := if |seen| < TopCount then |seen| else TopCount;
    Lines(counts, seen, idx[..n])
  }

  /** Line p of the top list holds the address at the p-th ranked position
      and its count. */
  lemma TopAt(counts: map<string, nat>, seen: seq<string>)
    ensures var byPosition := Tallies(counts, seen);
            var idx := Ranked(byPosition, 0);
            forall p :: 0 <= p < |Top3(counts, seen)| ==> Top3(counts, seen)[p] == Entry(seen[idx[p]], byPosition[idx[p]])
  {
    var byPosition := Tallies(counts, seen);
    var idx := Ranked(byPosition, 0);
    var n := if |seen| < TopCount then |seen| else TopCount;
    LinesAt(counts, seen, idx[..n]);
    TalliesSpec(counts, seen);
  }

  /** Address `a` was first recorded before address `b`. */
  ghost predicate SeenBefore(seen: seq<string>, a: string, b: string) {
    exists i, j :: 0 <= i < j < |seen| && seen[i] == a && seen[j] == b
  }

  /** The top list has min(3, number of sources) lines, each an actual tally
      entry, no source twice. */
  lemma TopEntries(counts: map<string, nat>, seen: seq<string>)
    requires Tally.WellFormed(counts, seen)
    ensures |Top3(counts, seen)| == if |seen| < TopCount then |seen| else TopCount
    ensures forall p :: 0 <= p < |Top3(counts, seen)| ==>
              Top3(counts, seen)[p].mac in counts && Top3(counts, seen)[p].count == counts[Top3(counts, seen)[p].mac]
    ensures forall p, q :: 0 <= p < q < |Top3(counts, seen)| ==> Top3(counts, seen)[p].mac != Top3(counts, seen)[q].mac
  {
    Tally.DistinctPairs(seen);
    TalliesSpec(counts, seen);
    var byPosition := Tallies(counts, seen);
    var idx := Ranked(byPosition, 0);
    RankedIsRanked(byPosition, 0);
    var r := Top3(counts, seen);
    TopAt(counts, seen);
    forall p, q | 0 <= p < q < |r| ensures r[p].mac != r[q].mac {
      assert Ahead(byPosition, idx[p], idx[q]);
      assert r[p].mac == seen[idx[p]] && r[q].mac == seen[idx[q]];
    }
  }

  /** The top list is non-increasing by count, and of two sources with the
      same count the one first seen comes first. */
  lemma TopOrdered(counts: map<string, nat>, seen: seq<string>)
    ensures forall p, q :: 0 <= p < q < |Top3(counts, seen)| ==>
              Top3(counts, seen)[p].count >= Top3(counts, seen)[q].count
    ensures forall p, q :: 0 <= p < q < |Top3(counts, seen)| && Top3(counts, seen)[p].count == Top3(counts, seen)[q].count ==>
              SeenBefore(seen, Top3(counts, seen)[p].mac, Top3(counts, seen)[q].mac)
  {
    var byPosition := Tallies(counts, seen);
    var idx := Ranked(byPosition, 0);
    RankedIsRanked(byPosition, 0);
    var r := Top3(counts, seen);
    TopAt(counts, seen);
    forall p, q | 0 <= p < q < |r|
      ensures r[p].count >= r[q].count
      ensures r[p].count == r[q].count ==> SeenBefore(seen, r[p].mac, r[q].mac)
    {
      assert Ahead(byPosition, idx[p], idx[q]);
      assert r[p] == Entry(seen[idx[p]], byPosition[idx[p]]) && r[q] == Entry(seen[idx[q]], byPosition[idx[q]]);
    }
  }

  /** The top list really is the top: a source left out of it has a smaller
      count than every listed one, or the same count and was seen later. */
  lemma TopComplete(counts: map<string, nat>, seen: seq<string>)
    requires Tally.WellFormed(counts, seen)
    ensures forall k, p ::
              (k in counts && 0 <= p < |Top3(counts, seen)| &&
               (forall q :: 0 <= q < |Top3(counts, seen)| ==> Top3(counts, seen)[q].mac != k)) ==>
              (counts[k] < Top3(counts, seen)[p].count ||
               (counts[k] == Top3(counts, seen)[p].count && SeenBefore(seen, Top3(counts, seen)[p].mac, k)))
  {
    var r := Top3(counts, seen);
    forall k, p | k in counts && 0 <= p < |r| && (forall q :: 0 <= q < |r| ==> r[q].mac != k)
      ensures counts[k] < r[p].count || (counts[k] == r[p].count && SeenBefore(seen, r[p].mac, k))
    {
      UnlistedBelow(counts, seen, k, p);
    }
  }

  /** TopComplete for one left-out source and one listed line. */
  lemma UnlistedBelow(counts: map<string, nat>, seen: seq<string>, k: string, p: nat)
    requires Tally.WellFormed(counts, seen)
    requires k in counts && p < |Top3(counts, seen)|
    requires forall q :: 0 <= q < |Top3(counts, seen)| ==> Top3(counts, seen)[q].mac != k
    ensures counts[k] < Top3(counts, seen)[p].count ||
            (counts[k] == Top3(counts, seen)[p].count && SeenBefore(seen, Top3(counts, seen)[p].mac, k))
  {
    Tally.DistinctPairs(seen);
    TalliesSpec(counts, seen);
    var byPosition := Tallies(counts, seen);
    var idx := Ranked(byPosition, 0);
    RankedIsRanked(byPosition, 0);
    RankedMembers(byPosition, 0);
    var r := Top3(counts, seen);
    TopAt(counts, seen);
    var i :| 0 <= i < |seen| && seen[i] == k;
    assert i in idx;
    var q :| 0 <= q < |idx| && idx[q] == i;
    assert forall q' :: 0 <= q' < |r| ==> r[q'].mac == seen[idx[q']];
    assert q >= |r|;
    assert Ahead(byPosition, idx[p], idx[q]);
    assert r[p] == Entry(seen[idx[p]], byPosition[idx[p]]);
  }
}
