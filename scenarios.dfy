/**
 * Three short runs of the detector, each with the alert it must produce.
 */
module Scenarios {
  import opened Detector
  import Tally
  import SlidingWindow
  import Ranking

  /** A fresh detector with threshold 3 that has seen frames from "A" at 0
      and 1 and raised no alert. */
  method Warmup(window: nat) returns (d: Detector, first: Option<Alert>, second: Option<Alert>)
    requires window >= 1
    ensures first == None && second == None
    ensures fresh(d) && d.Valid()
    ensures d.threshold == 3 && d.window == window
    ensures d.times == [0, 1] && d.counts == map["A" := 2] && d.seen == ["A"]
  {
    d := new Detector(3, window);
    FirstTwoFrames(window);
    first := d.Step(true, "A", 0, 0);
    second := d.Step(true, "A", 1, 1);
  }

  /** The window and the tally after frames from "A" at 0 and 1, with any
      window of at least one second. */
  lemma FirstTwoFrames(window: nat)
    requires window >= 1
    ensures SlidingWindow.Evicted([] + [0], 0, window) == [0]
    ensures Tally.Bumped(map[], "A") == map["A" := 1] && Tally.Noted([], "A") == ["A"]
    ensures SlidingWindow.Evicted([0] + [1], 1, window) == [0, 1]
    ensures Tally.Bumped(map["A" := 1], "A") == map["A" := 2] && Tally.Noted(["A"], "A") == ["A"]
  {
    assert [] + [0] == [0];
    assert [0] + [1] == [0, 1];
    assert Tally.Bumped(map["A" := 1], "A") == map["A" := 2];
  }

  /** Threshold 3, window 10: three frames from "A" at 0, 1 and 2. The third
      one raises an alert for three frames with "A" alone on top, and the
      detector starts a new cycle. */
  method SingleSource() returns (d: Detector, third: Option<Alert>)
    ensures third == Some(Alert(3, 10, [Ranking.Entry("A", 3)]))
    ensures d.times == [] && d.counts == map[] && d.seen == []
  {
    var first, second;
    d, first, second := Warmup(10);
    ThirdFrameKept();
    TopOfOne();
    third := d.Step(true, "A", 2, 2);
  }

  /** Threshold 3, window 5: frames at 0 and 10. At 10 the first one is more
      than five seconds old and goes, leaving one frame: no alert. */
  method StaleEvicted() returns (d: Detector, first: Option<Alert>, second: Option<Alert>)
    ensures first == None && second == None
    ensures d.times == [10]
  {
    d := new Detector(3, 5);
    FirstEvicted();
    first := d.Step(true, "A", 0, 0);
    second := d.Step(true, "A", 10, 10);
  }

  /** With a 5-second window, a frame at 0 is kept at 0 and gone at 10. */
  lemma FirstEvicted()
    ensures SlidingWindow.Evicted([] + [0], 0, 5) == [0]
    ensures SlidingWindow.Evicted([0] + [10], 10, 5) == [10]
  {
    assert [] + [0] == [0];
    assert [0] + [10] == [0, 10];
    assert SlidingWindow.StaleFrom([0, 10], 1, 10, 5) == 1;
  }

  /** Threshold 3, window 10: "A" at 0 and 1, "B" at 2. The alert lists "A"
      with two frames ahead of "B" with one. */
  method TwoSources() returns (third: Option<Alert>)
    ensures third == Some(Alert(3, 10, [Ranking.Entry("A", 2), Ranking.Entry("B", 1)]))
  {
    var d, first, second := Warmup(10);
    ThirdFrameKept();
    TopOfTwo();
    third := d.Step(true, "B", 2, 2);
  }

  /** At time 2 with a 10-second window nothing of 0, 1, 2 is evicted. */
  lemma ThirdFrameKept()
    ensures SlidingWindow.Evicted([0, 1] + [2], 2, 10) == [0, 1, 2]
  {
    assert [0, 1] + [2] == [0, 1, 2];
  }

  /** The top list after a third frame from "A". */
  lemma TopOfOne()
    ensures Ranking.Top3(Tally.Bumped(map["A" := 2], "A"), Tally.Noted(["A"], "A")) == [Ranking.Entry("A", 3)]
  {
    assert Tally.Bumped(map["A" := 2], "A") == map["A" := 3];
    assert Tally.Noted(["A"], "A") == ["A"];
    assert Ranking.Tallies(map["A" := 3], ["A"]) == [3];
    assert Ranking.Ranked([3], 0) == [0];
    assert [0][..1] == [0];
    assert Ranking.Lines(map["A" := 3], ["A"], [0]) == [Ranking.Entry("A", 3)];
  }

  /** The top list after a frame from "B" follows two from "A". */
  lemma TopOfTwo()
    ensures Ranking.Top3(Tally.Bumped(map["A" := 2], "B"), Tally.Noted(["A"], "B"))
            == [Ranking.Entry("A", 2), Ranking.Entry("B", 1)]
  {
    assert Tally.Bumped(map["A" := 2], "B") == map["A" := 2, "B" := 1];
    assert Tally.Noted(["A"], "B") == ["A", "B"];
    assert Ranking.Tallies(map["A" := 2, "B" := 1], ["A", "B"]) == [2, 1];
    assert Ranking.Ranked([2, 1], 1) == [1];
    assert Ranking.Ranked([2, 1], 0) == [0, 1];
    assert [0, 1][..2] == [0, 1];
    assert [0, 1][..1] == [0];
    assert Ranking.Lines(map["A" := 2, "B" := 1], ["A", "B"], [0]) == [Ranking.Entry("A", 2)];
  }
}
