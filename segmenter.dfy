/** Fixed-window segmentation of a speech-to-text transcript: the segments
    are bucketed, by their midpoints, into consecutive windows of a fixed
    length that cover the transcript from time 0 to the end of its last
    segment. Times are exact reals. */
module Segmenter {
  import opened Text

  /** One segment of the transcriber's output. */
  datatype Segment = Segment(start: real, end: real, text: string)

  /** One output window, numbered from 1. */
  datatype Window = Window(id: int, start: real, end: real, text: string)

  /** The transcript's length: the end of its LAST segment (not the largest
      end), or 0 for an empty transcript. */
  function TotalDuration(segs: seq<Segment>): real {
    if |segs| == 0 then 0.0 else segs[|segs| - 1].end
  }

  function Midpoint(seg: Segment): real {
    (seg.start + seg.end) / 2.0
  }

  /** The window `[lo, hi)` contains the segment's midpoint. */
  predicate InWindow(seg: Segment, lo: real, hi: real) {
    lo <= Midpoint(seg) < hi
  }

  function Min(a: real, b: real): real {
    if a <= b then a else b
  }

  /** The segments assigned to the window `[lo, hi)`, in input order. */
  function Assigned(segs: seq<Segment>, lo: real, hi: real): seq<Segment> {
    if segs == [] then []
    else
      var last := segs[|segs| - 1];
      Assigned(segs[..|segs| - 1], lo, hi) + (if InWindow(last, lo, hi) then [last] else [])
  }

  /** The segments' texts, each stripped of surrounding whitespace. */
  function StrippedTexts(segs: seq<Segment>): seq<string> {
    if segs == [] then [] else StrippedTexts(segs[..|segs| - 1]) + [Strip(segs[|segs| - 1].text)]
  }

  lemma StrippedTextsSnoc(segs: seq<Segment>, seg: Segment)
    ensures StrippedTexts(segs + [seg]) == StrippedTexts(segs) + [Strip(seg.text)]
  {
    assert (segs + [seg])[..|segs|] == segs;
  }

  /** `StrippedTexts` strips each text in place. */
  lemma {:induction false} StrippedTextsAt(segs: seq<Segment>)
    ensures |StrippedTexts(segs)| == |segs|
    ensures forall i :: 0 <= i < |segs| ==> StrippedTexts(segs)[i] == Strip(segs[i].text)
  {
    if segs != [] {
      StrippedTextsAt(segs[..|segs| - 1]);
    }
  }

  /** The text of the window `[lo, hi)`: the stripped texts of its segments
      joined by single spaces. */
  function WindowText(segs: seq<Segment>, lo: real, hi: real): string {
    Join(StrippedTexts(Assigned(segs, lo, hi)))
  }

  /** Each full window uses up exactly one unit of the loop's measure
      `(total - t) / d`, and the measure is positive while `t < total`. */
  lemma StepMeasure(t: real, d: real, total: real)
    requires d > 0.0 && t < total
    ensures (total - t) / d > 0.0
    ensures (total - (t + d)) / d + 1.0 == (total - t) / d
  {
    var x := total - t;
    assert d / d == 1.0;
    assert (x - d) / d == x / d - d / d;
    assert total - (t + d) == x - d;
  }

  /** A window's time range `[lo, hi)`. */
  datatype Span = Span(lo: real, hi: real)

  /** The ranges the outer loop visits from time `t` on: each starts where
      the previous one ended and is `d` long, except that none reaches past
      `total`. */
  function SpansFrom(d: real, total: real, t: real): seq<Span>
    requires d > 0.0 || total <= t
    decreases if t < total then (total - t) / d + 1.0 else 0.0
  {
    if t < total then
      var e := Min(t + d, total);
      StepMeasure(t, d, total);
      [Span(t, e)] + SpansFrom(d, total, e)
    else []
  }

  /** The window numbered `k + 1` over the range `s`. */
  function MakeWindow(segs: seq<Segment>, k: nat, s: Span): Window {
    Window(k + 1, s.lo, s.hi, WindowText(segs, s.lo, s.hi))
  }

  /** What `create_fixed_segments(segments, d)` returns: one window per
      range the loop visits from 0, numbered from 1. Windows are 5 seconds
      long unless the caller says otherwise. */
  function FixedSegments(segs: seq<Segment>, d: real := 5.0): seq<Window>
    requires d > 0.0 || TotalDuration(segs) <= 0.0
  {
    var spans := SpansFrom(d, TotalDuration(segs), 0.0);
    seq(|spans|, k requires 0 <= k < |spans| => MakeWindow(segs, k, spans[k]))
  }

  /** The inner loop: collect the stripped texts of the segments whose
      midpoint falls in `[lo, hi)` and join them with single spaces. */
  method CollectWindowText(segs: seq<Segment>, lo: real, hi: real) returns (text: string)
    ensures text == WindowText(segs, lo, hi)
  {
    var parts: seq<string> := [];
    for j := 0 to |segs|
      invariant parts == StrippedTexts(Assigned(segs[..j], lo, hi))
    {
      assert segs[..j + 1][..j] == segs[..j];
      var seg := segs[j];
      var mid := (seg.start + seg.end) / 2.0;
      assert Assigned(segs[..j + 1], lo, hi)
          == Assigned(segs[..j], lo, hi) + (if InWindow(seg, lo, hi) then [seg] else []);
      if lo <= mid < hi {
        StrippedTextsSnoc(Assigned(segs[..j], lo, hi), seg);
        parts := parts + [Strip(seg.text)];
      } else {
        assert Assigned(segs[..j], lo, hi) + [] == Assigned(segs[..j], lo, hi);
      }
    }
    assert segs[..|segs|] == segs;
    text := Join(parts);
  }

  /** The outer loop: lay windows of length `d` from 0 until the end of the
      last segment, the final one cut short at that end. The loop terminates
      exactly when `d > 0` or the transcript ends at or before 0. As in the
      source, `d` defaults to 5 seconds. */
  method CreateFixedSegments(segs: seq<Segment>, d: real := 5.0) returns (windows: seq<Window>)
    requires d > 0.0 || TotalDuration(segs) <= 0.0
    ensures windows == FixedSegments(segs, d)
  {
    var total := if |segs| > 0 then segs[|segs| - 1].end else 0.0;
    windows := [];
    var currentTime := 0.0;
    var segmentId := 1;
    ghost var visited: seq<Span> := [];
    while currentTime < total
      invariant 0.0 <= currentTime
      invariant visited + SpansFrom(d, total, currentTime) == SpansFrom(d, total, 0.0)
      invariant |windows| == |visited| && segmentId == |visited| + 1
      invariant forall j :: 0 <= j < |visited| ==> windows[j] == MakeWindow(segs, j, visited[j])
      decreases if currentTime < total then (total - currentTime) / d + 1.0 else 0.0
    {
      StepMeasure(currentTime, d, total);
      var segmentEnd := Min(currentTime + d, total);
      var text := CollectWindowText(segs, currentTime, segmentEnd);
      windows := windows + [Window(segmentId, currentTime, segmentEnd, text)];
      visited := visited + [Span(currentTime, segmentEnd)];
      currentTime := segmentEnd;
      segmentId := segmentId + 1;
    }
    assert visited == SpansFrom(d, total, 0.0);
  }
}
