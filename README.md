# Deauthentication-flood detector

A Dafny model of the detection engine inside `simulate_detector` in
`test5.py`. Each incoming frame drives one step of this engine:

- a deauthentication frame's arrival time goes at the back of a sliding
  window (`deauth_times`), and its source address's count goes up by one
  in the attacker tally (`attacker_counts`);
- times more than `window` seconds older than `now` are popped from the
  front of the window;
- if the window still holds at least `threshold` frames, an alert is
  produced. The alert carries the count, the window length and up to three
  sources with the highest counts. The window and the tally are then
  cleared, which starts a new detection cycle.

Layout:

- `window.dfy`, module `SlidingWindow`:
  - `Stale` counts the entries the eviction loop pops, and `Evicted` is
    the window that remains;
  - `Ordered` states time order neighbour by neighbour, and is proved the
    same as the pairwise `NonDecreasing`;
  - `Within` is a reference filter, proved equal to `Evicted` for
    arrivals in time order.
- `tally.dfy`, module `Tally`:
  - the tally is a `map<string, nat>` plus the order in which addresses
    were first recorded;
  - the order matters because the dictionary iterates in insertion order,
    and the top list breaks ties by it;
  - `Distinct` states that no address is listed twice, and is proved the
    same as "distinct at every pair of positions".
- `ranking.dfy`, module `Ranking`:
  - the top list is built by a stable insertion sort over first-seen
    positions (`Ranked`), cut to three and written out as lines
    (`Lines`, `Top3`);
  - lemmas prove that it is a ranking, has the right length, holds real
    entries, breaks ties by first-seen order and is complete.
- `detector.dfy`, module `Detector`:
  - class `Detector` has the window (`times`), the tally (`counts`,
    `seen`) and a ghost count of the frames recorded in the cycle;
  - `Step` is one pass of the loop body, `Run` the loop over a finite
    sequence of frames;
  - `Next` is the same pass on values (a `Cycle`: window, tally and
    first-seen order), and `Replay` folds it over a sequence of frames;
    `Step` and `Run` are proved to compute exactly these;
  - `Valid()` is the cycle invariant: the tally is well formed, the
    counts sum to the recorded frames, the window is no longer than that
    sum, and the window is in time order.
- `scenarios.dfy`, module `Scenarios`: three end-to-end runs with their
  exact alerts.

Inputs:

- Randomness and the clock are parameters of `Step`: `isDeauth`, `mac`,
  the arrival time `ts` and the time `now` read before eviction.
- Times are whole numbers of seconds.
- `threshold` and `window` are `nat` (see "## Left out" for negative values).
- Arrival times of deauthentication frames must be non-decreasing. This
  is a precondition of `Step` (`ts` is no earlier than the newest time in
  the window) and of `Run` (`Chronological`).
- `ts <= now` is not required, since nothing in the model depends on it.

Where the code decides:

- The alert fires at `count >= threshold` (`test5.py:66`), i.e. when the
  count reaches the threshold, not only when it exceeds it. A threshold of
  0 therefore alerts on every frame, even with an empty window.
- Equal counts in the top list keep the dictionary's insertion order,
  because `sorted` is stable (`test5.py:69`). Insertion order is therefore
  modelled, and an address whose count is updated keeps its place.

## Model

| member | source | states |
|---|---|---|
| Detector.Detector.constructor | test5.py:41-43 | a detector starts with an empty window, an empty tally, and the given threshold and window |
| Detector.Detector.RecordDeauth | test5.py:49-53 | a deauthentication frame appends `ts` as the last time in the window; its source's count rises by exactly one (from zero if new); every other key and count is unchanged; the cycle invariant holds |
| Detector.Detector.Ingest | test5.py:48-57 | only a deauthentication frame is recorded; any other frame leaves the window and the tally exactly as they were |
| Detector.Detector.Evict | test5.py:59-62 | the loop pops exactly `Stale` entries from the front, so the window becomes the suffix `Evicted`; every retained time is at most `window` seconds old; the tally is outside its frame, so it never changes |
| Detector.Detector.CheckThreshold | test5.py:64-80 | an alert iff the window length is at least `threshold`; the alert carries that length, the window and `Top3` of the tally, and both structures are then empty; otherwise nothing changes |
| Detector.Detector.Reset | test5.py:78-80 | the window and the tally are empty and the cycle invariant holds |
| Detector.Detector.Step | test5.py:47-80 | the new window, tally and first-seen order and the alert are exactly those of `Next` on the old state and the frame; the cycle invariant holds |
| Detector.Detector.Run | test5.py:45-82 | over frames in time order the cycle invariant holds at the end, and the alerts in order together with the final state are exactly `Replay` of the frames from the initial state |
| Detector.Next | test5.py:47-80 | one pass of the loop body on values: record a deauthentication frame, evict at `now`, alert and reset at the threshold; its properties are stated by NextResets, NextCountsRecent and NextNewest |
| Detector.NextResets | test5.py:64-80 | a pass either alerts, reporting at least `threshold` frames and the configured window, and starts a new cycle with an empty window and tally, or leaves fewer than `threshold` times in the window |
| Detector.Replay | test5.py:45-82 | the loop over a finite sequence of frames, one pass per frame, collecting the alerts in order; its properties are stated by ReplayAlerts |
| Detector.NextCountsRecent | test5.py:59-66 | with arrivals in time order, a pass alerts iff at least `threshold` of the recorded times are at most `window` seconds old at `now`, the alert reports how many, and every time kept is at most `window` seconds old |
| Detector.NextNewest | test5.py:51-62 | after a pass the newest time left is the frame's own for a deauthentication frame, and otherwise the newest time before it |
| Detector.NextNotBefore | test5.py:51-62 | with deauthentication frames in time order, the newest time left after the pass for frame k is no later than any later deauthentication frame, so the next pass may record it |
| Detector.ReplayAlerts | test5.py:45-82 | a run raises at most one alert per frame, and every alert reports at least `threshold` frames, the configured window and at most three sources |
| Detector.RecordKeepsConsistent | test5.py:52-53 | recording a frame that is no earlier than the newest time keeps the cycle consistent, with one more frame recorded |
| Detector.EvictKeepsConsistent | test5.py:61-62 | eviction keeps the counts summing to the recorded frames and the window ordered, and leaves only recent times |
| SlidingWindow.Stale | test5.py:61-62 | the loop never pops more entries than the window holds |
| SlidingWindow.StaleFrom | test5.py:61-62 | the scan started at position `from` stops between `from` and the end of the window |
| SlidingWindow.StaleFromScan | test5.py:61-62 | the scan from `from` passes only entries more than `window` seconds old and stops at the first one that is not |
| SlidingWindow.StaleSpec | test5.py:61-62 | every popped entry is more than `window` old; the first kept entry, if any, is at most `window` old |
| SlidingWindow.EvictedSuffix | test5.py:61-62 | eviction leaves a suffix of the window, never longer, whose front entry, if any, is at most `window` seconds old |
| SlidingWindow.OrderedIsNonDecreasing | test5.py:52 | the window is in time order neighbour by neighbour iff it is in time order at every pair of positions |
| SlidingWindow.Within | test5.py:59-62 | reference definition of the entries at most `window` old; never longer than its input |
| SlidingWindow.WithinMembers | test5.py:59-62 | a time is kept by the reference filter iff it is in the window and at most `window` old |
| SlidingWindow.EvictedRecent | test5.py:59-62 | with times in order, every retained entry is at most `window` old and the window stays ordered |
| SlidingWindow.AppendNonDecreasing | test5.py:51-52 | appending a time no earlier than the last keeps the window in time order |
| SlidingWindow.EvictedKeepsNewest | test5.py:61-62 | eviction keeps the newest entry unless it empties the window |
| SlidingWindow.EvictedIdempotent | test5.py:61-62 | evicting again at the same `now` removes nothing |
| SlidingWindow.BoundaryKept | test5.py:61 | an entry exactly `window` seconds old is not evicted, because the comparison is strict |
| SlidingWindow.EvictedIsWithin | test5.py:59-65 | with times in order, popping from the front keeps exactly the entries at most `window` old, so the count read at line 65 is the number of frames in the last `window` seconds |
| SlidingWindow.ScanIsWithin | test5.py:61-62 | the scan from any position ends where the reference filter of the rest begins |
| Tally.SumIgnoresUnlisted | test5.py:53 | changing the count of an unlisted address leaves the sum unchanged |
| Tally.SumBumpListed | test5.py:53 | raising a listed address's count by one raises the sum by one |
| Tally.BumpedAddsOne | test5.py:53 | `counts.get(mac, 0) + 1` keeps the tally well formed and adds exactly one to the sum of the counts |
| Tally.BumpedListedWellFormed | test5.py:53 | another frame from a known source leaves the first-seen order unchanged and keeps the tally well formed |
| Tally.BumpedNewWellFormed | test5.py:53 | a frame from a new source lists it last with count one, and the tally stays well formed |
| Tally.SourcesAtMostSum | test5.py:43-53 | there are never more distinct sources than recorded frames |
| Tally.SumAgrees | test5.py:43 | the sum depends only on the counts of the listed addresses |
| Tally.BumpedSpec | test5.py:53 | `attacker_counts.get(mac, 0) + 1`: after one more frame from `mac` the keys are the old keys plus `mac`, its count is one more than its stored count (one if it was new), and no other count changes |
| Tally.NotedSpec | test5.py:53 | the first-seen order keeps every listed address in place; a new address goes last, a known one changes nothing |
| Tally.DistinctPairs | test5.py:53 | the listing has no address twice iff the addresses at any two positions differ |
| Ranking.Insert | test5.py:69 | one insertion step of the stable sort yields positions, one longer |
| Ranking.Ranked | test5.py:69 | sorting the positions from `lo` on yields one position per count from `lo` on |
| Ranking.Tallies | test5.py:69 | one count per address first seen, as the dictionary yields its items |
| Ranking.TalliesSpec | test5.py:69 | position i of the listing is the count of the i-th address first seen |
| Ranking.Lines | test5.py:69 | one top-list line per ranked position |
| Ranking.LinesAt | test5.py:69 | line p names the address at the p-th ranked position and its count |
| Ranking.Top3 | test5.py:69 | the top list has three lines, or one per source when there are fewer |
| Ranking.TopAt | test5.py:69 | line p of the top list is the p-th ranked address with its count |
| Ranking.InsertMembers | test5.py:69 | insertion adds the new position and loses none |
| Ranking.RankedMembers | test5.py:69 | the sort is a permutation: every position occurs, and nothing else |
| Ranking.InsertRanked | test5.py:69 | inserting a position seen before all ranked ones keeps the ranking: descending counts, ties in first-seen order |
| Ranking.PrependRanked | test5.py:69 | a position going in front keeps the ranking |
| Ranking.ConsRanked | test5.py:69 | a position ahead of every ranked one can lead |
| Ranking.RankedIsRanked | test5.py:69 | the sort yields a ranking: counts non-increasing, equal counts in first-seen order |
| Ranking.TopEntries | test5.py:69 | the top list has min(3, number of sources) lines, each an actual tally entry, no source twice |
| Ranking.TopOrdered | test5.py:69 | the top list is non-increasing by count, and of two equal counts the source seen first comes first |
| Ranking.TopComplete | test5.py:69 | every source left out has a smaller count than each listed one, or an equal count and was seen later |
| Ranking.UnlistedBelow | test5.py:69 | the completeness property for one left-out source and one listed line |
| Scenarios.Warmup | test5.py:47-80 | frames from "A" at 0 and 1 with threshold 3 raise no alert at either step and leave window [0, 1], tally A: 2 and order [A] |
| Scenarios.SingleSource | test5.py:47-80 | threshold 3, window 10, "A" at 0, 1, 2: the third frame alerts with count 3 and top [A(3)], and both structures are cleared |
| Scenarios.StaleEvicted | test5.py:59-66 | threshold 3, window 5, frames at 0 and 10: the first is evicted at 10, one frame remains, no alert |
| Scenarios.FirstEvicted | test5.py:61 | with a 5-second window a frame at 0 is kept at time 0 and evicted at time 10 |
| Scenarios.TwoSources | test5.py:47-80 | "A" at 0 and 1, "B" at 2: the alert lists A(2) before B(1) |
| Scenarios.FirstTwoFrames | test5.py:49-62 | the concrete window and tally after the first two frames |
| Scenarios.ThirdFrameKept | test5.py:61 | at time 2 with a 10-second window nothing of 0, 1, 2 is evicted |
| Scenarios.TopOfOne | test5.py:69 | the top list of a cycle with three frames from "A" is [A(3)] |
| Scenarios.TopOfTwo | test5.py:69 | the top list after A, A, B is [A(2), B(1)] |

## Left out

- Random packet generation (`random.random` at test5.py:48, `rand_mac` at test5.py:21-25): whether a frame is a deauthentication frame and its source address are inputs of `Step`. The fixed address prefixes are not modelled.
- The clock and sleeping (`time.time` at test5.py:51 and 60, `time.sleep` at test5.py:82): `ts` and `now` are inputs, and the delay between frames is not modelled.
- Floating-point timestamps: times are whole seconds (`int`), so sub-second differences are not modelled.
- Console output and the ANSI colour constants (test5.py:11-19, 38-39, 54, 57, 75, 85-86): pure I/O.
- File logging through `write_log` (test5.py:27-29, 76): file I/O.
- The alert's wall-clock text (`datetime.now().strftime`, test5.py:68) and the layout of the alert string (test5.py:70-74): an alert is the record (count, window, top list).
- The endless `while True` loop and its exit on `KeyboardInterrupt` (test5.py:45-46, 84-86): `Run` processes a finite sequence of frames instead.
- Negative `--threshold` or `--window` values (test5.py:93-96 accept any integer): with a negative threshold the source alerts on every pass, and with a negative window every pass empties the window. The model takes both as `nat`, so it does not cover these runs.
- Argument parsing and `main` (test5.py:89-113): configuration glue. The `--log` file receives only the start-up header (test5.py:105); alerts always go to the default log file.
