/** What the windows produced by `Segmenter.FixedSegments` (and hence by
    `Segmenter.CreateFixedSegments`) are: a closed form, the tiling of
    `[0, T)`, window lengths, ids, and where each segment's text goes. */
module SegmenterProperties {
  import opened Text
  import opened Segmenter

  // ---------------------------------------------------------------------
  // Window boundaries

  /** The `k`-th window boundary as the loop reaches it: `d` added `k`
      times to 0. */
  function Boundary(k: nat, d: real): real {
    if k == 0 then 0.0 else Boundary(k - 1, d) + d
  }

  /** The `k`-th boundary is `k * d`. */
  lemma {:induction false} BoundaryIsProduct(k: nat, d: real)
    ensures Boundary(k, d) == k as real * d
  {
    if k > 0 {
      BoundaryIsProduct(k - 1, d);
      assert (k - 1) as real * d + d == k as real * d;
    }
  }

  /** Boundaries strictly increase. */
  lemma {:induction false} BoundaryMono(j: nat, k: nat, d: real)
    requires d > 0.0 && j < k
    ensures Boundary(j, d) < Boundary(k, d)
  {
    if j < k - 1 {
      BoundaryMono(j, k - 1, d);
    }
  }

  lemma BoundaryNonNegative(k: nat, d: real)
    requires d > 0.0
    ensures 0.0 <= Boundary(k, d)
  {
    if k > 0 {
      BoundaryMono(0, k, d);
    }
  }

  /** The ceiling of `x`, characterised by its bounds. */
  function Ceil(x: real): (n: int)
    ensures n as real - 1.0 < x <= n as real
  {
    -((-x).Floor)
  }

  /** `m` lies in `[k * d, (k + 1) * d)` exactly when `k` is the floor of `m / d`. */
  lemma FloorOfQuotient(m: real, d: real, k: int)
    requires d > 0.0
    ensures (k as real * d <= m < (k + 1) as real * d) <==> (m / d).Floor == k
  {
    var q := m / d;
    assert q * d == m;
    assert k as real * d <= m <==> k as real <= q;
    assert m < (k + 1) as real * d <==> q < (k + 1) as real;
  }

  /** `m` lies between the `k`-th and the next boundary exactly when `k` is
      the floor of `m / d`. */
  lemma FloorIndex(m: real, d: real, k: nat)
    requires d > 0.0
    ensures Boundary(k, d) <= m < Boundary(k + 1, d) <==> (m / d).Floor == k
  {
    BoundaryIsProduct(k, d);
    BoundaryIsProduct(k + 1, d);
    FloorOfQuotient(m, d, k);
  }

  /** A time in `[0, total)` has its floor index below any count of
      boundaries that reaches `total`. */
  lemma FloorBelowCount(m: real, d: real, n: nat, total: real)
    requires d > 0.0 && 0.0 <= m < total <= Boundary(n, d)
    ensures 0 <= (m / d).Floor < n
  {
    var q := m / d;
    assert q * d == m;
    assert 0.0 <= q;
    var f := q.Floor;
    if f >= n {
      FloorIndex(m, d, f);
      if n < f {
        BoundaryMono(n, f, d);
      }
    }
  }

  /** When `n` boundaries are needed to reach `total`, `n` is the ceiling
      of `total / d`. */
  lemma CeilIndex(total: real, d: real, n: nat)
    requires d > 0.0 && n > 0
    requires Boundary(n - 1, d) < total <= Boundary(n, d)
    ensures Ceil(total / d) == n
  {
    BoundaryIsProduct(n - 1, d);
    BoundaryIsProduct(n, d);
    var q := total / d;
    assert q * d == total;
    assert (n - 1) as real < q <= n as real;
  }

  // ---------------------------------------------------------------------
  // A closed form of the windows

  /** The number of windows: `ceil(total / d)`, or none when `total <= 0`. */
  function WindowCount(total: real, d: real): nat
    requires d > 0.0
  {
    if total <= 0.0 then 0 else Ceil(total / d)
  }

  /** Range number `k` (counting from 0), written directly: it starts at the
      `k`-th boundary and ends `d` later or at `total`, whichever is first. */
  function SpanAt(d: real, total: real, k: nat): Span {
    var lo := Boundary(k, d);
    Span(lo, Min(lo + d, total))
  }

  /** Window number `k` (counting from 0), written directly: the range
      `SpanAt(k)` with the id `k + 1`. */
  function WindowAt(segs: seq<Segment>, d: real, total: real, k: nat): Window {
    MakeWindow(segs, k, SpanAt(d, total, k))
  }

  /** From the `k`-th boundary on, the loop visits `SpanAt(k)`, `SpanAt(k + 1)`, ... */
  lemma {:induction false} SpansFromElements(d: real, total: real, k: nat, t: real)
    requires d > 0.0 && t == Boundary(k, d)
    ensures var spans := SpansFrom(d, total, t);
            forall i :: k <= i < k + |spans| ==> spans[i - k] == SpanAt(d, total, i)
    decreases if t < total then (total - t) / d + 1.0 else 0.0
  {
    if t < total {
      StepMeasure(t, d, total);
      var t' := t + d;
      assert t' == Boundary(k + 1, d);
      var spans := SpansFrom(d, total, t);
      if t' < total {
        SpansFromElements(d, total, k + 1, t');
        var rest := SpansFrom(d, total, t');
        assert spans == [SpanAt(d, total, k)] + rest;
        forall i | k < i < k + |spans|
          ensures spans[i - k] == SpanAt(d, total, i)
        {
          assert spans[i - k] == rest[i - (k + 1)];
        }
      } else {
        assert spans == [SpanAt(d, total, k)] + SpansFrom(d, total, total);
      }
    }
  }

  /** ... and as many of them as it takes for a boundary to reach `total`. */
  lemma {:induction false} SpansFromCount(d: real, total: real, k: nat, t: real)
    requires d > 0.0 && t == Boundary(k, d)
    ensures var n := k + |SpansFrom(d, total, t)|;
            && (t < total ==> n > 0 && Boundary(n - 1, d) < total <= Boundary(n, d))
            && (total <= t ==> n == k)
    decreases if t < total then (total - t) / d + 1.0 else 0.0
  {
    if t < total {
      StepMeasure(t, d, total);
      var t' := t + d;
      assert t' == Boundary(k + 1, d);
      var spans := SpansFrom(d, total, t);
      var rest := SpansFrom(d, total, Min(t', total));
      assert |spans| == 1 + |rest|;
      if t' < total {
        SpansFromCount(d, total, k + 1, t');
      } else {
        assert rest == [];
      }
    }
  }

  /** How many windows there are: `n` with the `n - 1`-th boundary below
      `T` and the `n`-th at or above it, or none when `T <= 0`. */
  lemma FixedSegmentsCount(segs: seq<Segment>, d: real)
    requires d > 0.0
    ensures var n := |FixedSegments(segs, d)|;
            && (TotalDuration(segs) <= 0.0 ==> n == 0)
            && (0.0 < TotalDuration(segs) ==>
                  n > 0 && Boundary(n - 1, d) < TotalDuration(segs) <= Boundary(n, d))
  {
    SpansFromCount(d, TotalDuration(segs), 0, 0.0);
  }

  /** Window `k` is `WindowAt(k)`: it covers `SpanAt(k)`. */
  lemma WindowIsWindowAt(segs: seq<Segment>, d: real, k: nat)
    requires d > 0.0 && k < |FixedSegments(segs, d)|
    ensures FixedSegments(segs, d)[k] == WindowAt(segs, d, TotalDuration(segs), k)
  {
    var total := TotalDuration(segs);
    var spans := SpansFrom(d, total, 0.0);
    SpansFromElements(d, total, 0, 0.0);
    assert spans[k - 0] == SpanAt(d, total, k);
  }

  /** The windows are `WindowAt(0)`, ..., `WindowAt(n - 1)` with
      `n = ceil(T / d)` (none when `T <= 0`), `T` the end of the last
      segment; window `k` starts at `k * d`. */
  lemma FixedSegmentsClosedForm(segs: seq<Segment>, d: real)
    requires d > 0.0
    ensures var ws := FixedSegments(segs, d);
            && |ws| == WindowCount(TotalDuration(segs), d)
            && (forall k :: 0 <= k < |ws| ==> ws[k] == WindowAt(segs, d, TotalDuration(segs), k))
            && forall k :: 0 <= k < |ws| ==> ws[k].start == k as real * d
  {
    var total := TotalDuration(segs);
    var ws := FixedSegments(segs, d);
    assert |ws| == WindowCount(total, d) by {
      FixedSegmentsCount(segs, d);
      if 0.0 < total {
        CeilIndex(total, d, |ws|);
      }
    }
    forall k | 0 <= k < |ws|
      ensures ws[k] == WindowAt(segs, d, total, k)
      ensures ws[k].start == k as real * d
    {
      WindowIsWindowAt(segs, d, k);
      BoundaryIsProduct(k, d);
    }
  }

  // ---------------------------------------------------------------------
  // The windows tile [0, T)

  /** An empty transcript, or one whose last segment ends at or before 0,
      gives no windows, whatever the window length. */
  lemma NoWindowsWithoutDuration(segs: seq<Segment>, d: real)
    requires TotalDuration(segs) <= 0.0
    ensures FixedSegments(segs, d) == []
  {
  }

  /** The facts about one range that everything below is built from: its
      place inside `[0, total)`, that it starts `d` after the one before it
      (the first at 0), and that it ends `d` after its start, except the
      last, which ends at `total`. */
  lemma SpanFacts(d: real, total: real, k: nat)
    requires d > 0.0 && k < |SpansFrom(d, total, 0.0)|
    ensures var spans := SpansFrom(d, total, 0.0);
            && 0.0 <= spans[k].lo < total
            && (k == 0 ==> spans[k].lo == 0.0)
            && (k > 0 ==> spans[k].lo == spans[k - 1].lo + d)
            && spans[k].hi == (if k < |spans| - 1 then spans[k].lo + d else total)
            && spans[k].hi <= spans[k].lo + d
  {
    var spans := SpansFrom(d, total, 0.0);
    var n := |spans|;
    SpansFromElements(d, total, 0, 0.0);
    SpansFromCount(d, total, 0, 0.0);
    assert spans[k - 0] == SpanAt(d, total, k);
    BoundaryNonNegative(k, d);
    if k < n - 1 {
      BoundaryMono(k, n - 1, d);
      if k + 1 < n - 1 {
        BoundaryMono(k + 1, n - 1, d);
      }
    }
    if k > 0 {
      assert spans[(k - 1) - 0] == SpanAt(d, total, k - 1);
    }
  }

  /** The same facts about window `k`, and its id and text. */
  lemma WindowFacts(segs: seq<Segment>, d: real, k: nat)
    requires d > 0.0 && k < |FixedSegments(segs, d)|
    ensures var ws := FixedSegments(segs, d);
            && ws[k].id == k + 1
            && 0.0 <= ws[k].start < TotalDuration(segs)
            && (k == 0 ==> ws[k].start == 0.0)
            && (k > 0 ==> ws[k].start == ws[k - 1].start + d)
            && ws[k].end == (if k < |ws| - 1 then ws[k].start + d else TotalDuration(segs))
            && ws[k].end <= ws[k].start + d
            && ws[k].text == WindowText(segs, ws[k].start, ws[k].end)
  {
    SpanFacts(d, TotalDuration(segs), k);
  }

  /** The windows tile `[0, T)`: there is one iff `T > 0`, the first starts
      at 0, each starts where the previous one ended, and the last ends at `T`. */
  lemma WindowsTile(segs: seq<Segment>, d: real)
    requires d > 0.0
    ensures var ws := FixedSegments(segs, d);
            && (ws != [] <==> TotalDuration(segs) > 0.0)
            && (ws != [] ==> ws[0].start == 0.0 && ws[|ws| - 1].end == TotalDuration(segs))
            && forall k :: 0 < k < |ws| ==> ws[k].start == ws[k - 1].end
  {
    var ws := FixedSegments(segs, d);
    assert ws != [] <==> TotalDuration(segs) > 0.0 by {
      FixedSegmentsCount(segs, d);
    }
    if ws != [] {
      assert ws[0].start == 0.0 by {
        WindowFacts(segs, d, 0);
      }
      assert ws[|ws| - 1].end == TotalDuration(segs) by {
        WindowFacts(segs, d, |ws| - 1);
      }
    }
    forall k | 0 < k < |ws|
      ensures ws[k].start == ws[k - 1].end
    {
      WindowsAdjacent(segs, d, k);
    }
  }

  lemma WindowsAdjacent(segs: seq<Segment>, d: real, k: nat)
    requires d > 0.0 && 0 < k < |FixedSegments(segs, d)|
    ensures FixedSegments(segs, d)[k].start == FixedSegments(segs, d)[k - 1].end
  {
    var ws := FixedSegments(segs, d);
    WindowFacts(segs, d, k - 1);
    assert ws[k - 1].end == ws[k - 1].start + d;
    WindowFacts(segs, d, k);
  }

  /** Every window is non-empty and at most `d` long, and every window but
      the last is exactly `d` long. */
  lemma WindowLengths(segs: seq<Segment>, d: real)
    requires d > 0.0
    ensures var ws := FixedSegments(segs, d);
            && (forall k :: 0 <= k < |ws| ==> ws[k].start < ws[k].end <= ws[k].start + d)
            && (forall k :: 0 <= k < |ws| - 1 ==> ws[k].end == ws[k].start + d)
  {
    var ws := FixedSegments(segs, d);
    forall k | 0 <= k < |ws|
      ensures ws[k].start < ws[k].end <= ws[k].start + d
      ensures k < |ws| - 1 ==> ws[k].end == ws[k].start + d
    {
      WindowFacts(segs, d, k);
    }
  }

  /** Window ids are 1, 2, ..., n in output order. */
  lemma WindowIds(segs: seq<Segment>, d: real)
    requires d > 0.0
    ensures var ws := FixedSegments(segs, d);
            forall k :: 0 <= k < |ws| ==> ws[k].id == k + 1
  {
    var ws := FixedSegments(segs, d);
    forall k | 0 <= k < |ws|
      ensures ws[k].id == k + 1
    {
      WindowFacts(segs, d, k);
    }
  }

  /** Each window's text is the stripped texts of the segments whose
      midpoints it contains, in input order, joined by single spaces; it is
      `""` when no segment's midpoint falls in the window. */
  lemma WindowTexts(segs: seq<Segment>, d: real, k: nat)
    requires d > 0.0 && k < |FixedSegments(segs, d)|
    ensures var w := FixedSegments(segs, d)[k];
            var inWindow := Assigned(segs, w.start, w.end);
            && w.text == Join(StrippedTexts(inWindow))
            && (forall s :: s in inWindow <==> s in segs && InWindow(s, w.start, w.end))
            && |StrippedTexts(inWindow)| == |inWindow|
            && (forall i :: 0 <= i < |inWindow| ==> StrippedTexts(inWindow)[i] == Strip(inWindow[i].text))
            && ((forall i :: 0 <= i < |segs| ==> !InWindow(segs[i], w.start, w.end)) ==> w.text == "")
  {
    var w := FixedSegments(segs, d)[k];
    WindowFacts(segs, d, k);
    AssignedMembers(segs, w.start, w.end);
    AssignedEmpty(segs, w.start, w.end);
    StrippedTextsAt(Assigned(segs, w.start, w.end));
  }

  // ---------------------------------------------------------------------
  // Where segments go

  /** Window `k` contains `m` exactly when `0 <= m < T` and `k` is the floor of `m / d`. */
  lemma WindowContains(segs: seq<Segment>, d: real, m: real, k: nat)
    requires d > 0.0 && k < |FixedSegments(segs, d)|
    ensures var w := FixedSegments(segs, d)[k];
            w.start <= m < w.end <==> 0.0 <= m < TotalDuration(segs) && k == (m / d).Floor
  {
    WindowIsWindowAt(segs, d, k);
    WindowFacts(segs, d, k);
    BoundaryNonNegative(k, d);
    FloorIndex(m, d, k);
  }

  /** Every time `m` lies in exactly one window if `0 <= m < T` (the window
      numbered `floor(m / d)` from 0), and in none otherwise. */
  lemma MidpointWindow(segs: seq<Segment>, d: real, m: real)
    requires d > 0.0
    ensures var ws := FixedSegments(segs, d);
            && (0.0 <= m < TotalDuration(segs) ==> 0 <= (m / d).Floor < |ws|)
            && forall k :: 0 <= k < |ws| ==>
                 (ws[k].start <= m < ws[k].end <==>
                  0.0 <= m < TotalDuration(segs) && k == (m / d).Floor)
  {
    var total := TotalDuration(segs);
    var ws := FixedSegments(segs, d);
    var f := (m / d).Floor;
    if 0.0 <= m < total {
      assert 0 <= f < |ws| by {
        FixedSegmentsCount(segs, d);
        FloorBelowCount(m, d, |ws|, total);
      }
    }
    forall k | 0 <= k < |ws|
      ensures ws[k].start <= m < ws[k].end <==> 0.0 <= m < total && k == f
    {
      WindowContains(segs, d, m, k);
    }
  }

  /** Splitting the input splits the assigned segments: they keep the
      input order. */
  lemma {:induction false} AssignedConcat(a: seq<Segment>, b: seq<Segment>, lo: real, hi: real)
    ensures Assigned(a + b, lo, hi) == Assigned(a, lo, hi) + Assigned(b, lo, hi)
  {
    if b == [] {
      assert a + b == a;
    } else {
      var b' := b[..|b| - 1];
      assert (a + b)[..|a + b| - 1] == a + b';
      AssignedConcat(a, b', lo, hi);
    }
  }

  /** Segment `i` is assigned, at its place in input order, exactly when its
      midpoint lies in `[lo, hi)`. */
  lemma AssignedAt(segs: seq<Segment>, i: nat, lo: real, hi: real)
    requires i < |segs|
    ensures Assigned(segs, lo, hi)
         == Assigned(segs[..i], lo, hi)
            + (if InWindow(segs[i], lo, hi) then [segs[i]] else [])
            + Assigned(segs[i + 1..], lo, hi)
  {
    assert segs == segs[..i] + [segs[i]] + segs[i + 1..];
    AssignedConcat(segs[..i] + [segs[i]], segs[i + 1..], lo, hi);
    AssignedConcat(segs[..i], [segs[i]], lo, hi);
    assert [segs[i]][..0] == [];
  }

  /** The assigned segments are exactly the input segments whose midpoint
      lies in `[lo, hi)`. */
  lemma {:induction false} AssignedMembers(segs: seq<Segment>, lo: real, hi: real)
    ensures forall s :: s in Assigned(segs, lo, hi) <==> s in segs && InWindow(s, lo, hi)
  {
    if segs != [] {
      var init := segs[..|segs| - 1];
      AssignedMembers(init, lo, hi);
      assert segs == init + [segs[|segs| - 1]];
    }
  }

  /** A window gets no segment at all exactly when no segment's midpoint lies in it. */
  lemma AssignedEmpty(segs: seq<Segment>, lo: real, hi: real)
    ensures Assigned(segs, lo, hi) == [] <==> forall i :: 0 <= i < |segs| ==> !InWindow(segs[i], lo, hi)
  {
    AssignedMembers(segs, lo, hi);
    if Assigned(segs, lo, hi) != [] {
      assert Assigned(segs, lo, hi)[0] in Assigned(segs, lo, hi);
    }
  }

  /** Where segment `i` goes: into the one window whose range holds its
      midpoint, between the segments before and after it, or nowhere when
      the midpoint is below 0 or at or after `T` (the end of the LAST
      segment, so a segment ending later than the last one can be dropped). */
  lemma SegmentAssignment(segs: seq<Segment>, d: real, i: nat)
    requires d > 0.0 && i < |segs|
    ensures var ws := FixedSegments(segs, d);
            var m := Midpoint(segs[i]);
            && (0.0 <= m < TotalDuration(segs) ==> 0 <= (m / d).Floor < |ws|)
            && forall k :: 0 <= k < |ws| ==>
                 Assigned(segs, ws[k].start, ws[k].end)
                   == Assigned(segs[..i], ws[k].start, ws[k].end)
                      + (if 0.0 <= m < TotalDuration(segs) && k == (m / d).Floor
                         then [segs[i]] else [])
                      + Assigned(segs[i + 1..], ws[k].start, ws[k].end)
  {
    var ws := FixedSegments(segs, d);
    MidpointWindow(segs, d, Midpoint(segs[i]));
    forall k | 0 <= k < |ws|
      ensures Assigned(segs, ws[k].start, ws[k].end)
           == Assigned(segs[..i], ws[k].start, ws[k].end)
              + (if 0.0 <= Midpoint(segs[i]) < TotalDuration(segs)
                    && k == (Midpoint(segs[i]) / d).Floor
                 then [segs[i]] else [])
              + Assigned(segs[i + 1..], ws[k].start, ws[k].end)
    {
      AssignedAt(segs, i, ws[k].start, ws[k].end);
    }
  }

  // ---------------------------------------------------------------------
  // Feeding the output back in

  /** The windows read back as segments (the JSON output re-read as input). */
  function AsSegments(ws: seq<Window>): seq<Segment> {
    seq(|ws|, k requires 0 <= k < |ws| => Segment(ws[k].start, ws[k].end, ws[k].text))
  }

  /** The midpoint of window `j` lies in window `k` exactly when `j == k`. */
  lemma MidpointOwnWindow(segs: seq<Segment>, d: real, j: nat, k: nat)
    requires d > 0.0 && j < |FixedSegments(segs, d)| && k < |FixedSegments(segs, d)|
    ensures var ws := FixedSegments(segs, d);
            var m := (ws[j].start + ws[j].end) / 2.0;
            ws[k].start <= m < ws[k].end <==> j == k
  {
    var ws := FixedSegments(segs, d);
    var m := (ws[j].start + ws[j].end) / 2.0;
    WindowFacts(segs, d, j);
    assert ws[j].start < ws[j].end;
    WindowContains(segs, d, m, j);
    WindowContains(segs, d, m, k);
  }

  /** Read back as a segment, window `k` has its midpoint inside window `k`
      and inside no other window. */
  lemma OnlyOwnWindow(segs: seq<Segment>, d: real, k: nat)
    requires d > 0.0 && k < |FixedSegments(segs, d)|
    ensures var ws := FixedSegments(segs, d);
            Assigned(AsSegments(ws), ws[k].start, ws[k].end) == [AsSegments(ws)[k]]
  {
    var ws := FixedSegments(segs, d);
    var again := AsSegments(ws);
    var lo, hi := ws[k].start, ws[k].end;
    forall j | 0 <= j < |again|
      ensures InWindow(again[j], lo, hi) <==> j == k
    {
      MidpointOwnWindow(segs, d, j, k);
    }
    AssignedAt(again, k, lo, hi);
    assert Assigned(again[..k], lo, hi) == [] by {
      AssignedEmpty(again[..k], lo, hi);
    }
    assert Assigned(again[k + 1..], lo, hi) == [] by {
      AssignedEmpty(again[k + 1..], lo, hi);
    }
  }

  /** With no blank segment text, every window's text is already stripped. */
  lemma WindowTextStripped(segs: seq<Segment>, d: real, k: nat)
    requires d > 0.0 && k < |FixedSegments(segs, d)|
    requires forall i :: 0 <= i < |segs| ==> Strip(segs[i].text) != []
    ensures IsStripped(FixedSegments(segs, d)[k].text)
  {
    var ws := FixedSegments(segs, d);
    WindowFacts(segs, d, k);
    var inWindow := Assigned(segs, ws[k].start, ws[k].end);
    AssignedMembers(segs, ws[k].start, ws[k].end);
    forall j | 0 <= j < |inWindow|
      ensures Strip(inWindow[j].text) != []
    {
      assert inWindow[j] in segs;
    }
    StrippedTextsAt(inWindow);
    JoinStripped(StrippedTexts(inWindow));
  }

  /** Segmenting the output again with the same `D` keeps every window's
      id, start and end, and strips its text. */
  lemma ResegmentStrips(segs: seq<Segment>, d: real)
    requires d > 0.0
    ensures |FixedSegments(AsSegments(FixedSegments(segs, d)), d)| == |FixedSegments(segs, d)|
    ensures forall k :: 0 <= k < |FixedSegments(segs, d)| ==>
              FixedSegments(AsSegments(FixedSegments(segs, d)), d)[k]
              == FixedSegments(segs, d)[k].(text := Strip(FixedSegments(segs, d)[k].text))
  {
    var total := TotalDuration(segs);
    var ws := FixedSegments(segs, d);
    var again := AsSegments(ws);
    var ws' := FixedSegments(again, d);
    if ws == [] {
      assert again == [];
    } else {
      assert TotalDuration(again) == total by {
        WindowsTile(segs, d);
      }
      forall k | 0 <= k < |ws|
        ensures ws'[k] == ws[k].(text := Strip(ws[k].text))
      {
        var lo, hi := ws[k].start, ws[k].end;
        OnlyOwnWindow(segs, d, k);
        WindowTextOfOne(again, lo, hi, again[k]);
      }
    }
  }

  /** Segmenting the output again gives it back exactly when every window
      text is already stripped. */
  lemma ResegmentIdentityIff(segs: seq<Segment>, d: real)
    requires d > 0.0
    ensures FixedSegments(AsSegments(FixedSegments(segs, d)), d) == FixedSegments(segs, d)
        <==> forall k :: 0 <= k < |FixedSegments(segs, d)| ==> IsStripped(FixedSegments(segs, d)[k].text)
  {
    var ws := FixedSegments(segs, d);
    var ws' := FixedSegments(AsSegments(ws), d);
    ResegmentStrips(segs, d);
    if forall k :: 0 <= k < |ws| ==> IsStripped(ws[k].text) {
      forall k | 0 <= k < |ws|
        ensures ws'[k] == ws[k]
      {
        StripIdempotent(ws[k].text);
      }
    }
    if ws' == ws {
      forall k | 0 <= k < |ws|
        ensures IsStripped(ws[k].text)
      {
        assert ws[k].text == ws'[k].text == Strip(ws[k].text);
      }
    }
  }

  /** In particular, when no segment text strips to `""`, segmenting the
      output again gives it back. */
  lemma ResegmentIsIdentity(segs: seq<Segment>, d: real)
    requires d > 0.0
    requires forall i :: 0 <= i < |segs| ==> Strip(segs[i].text) != []
    ensures FixedSegments(AsSegments(FixedSegments(segs, d)), d) == FixedSegments(segs, d)
  {
    var ws := FixedSegments(segs, d);
    forall k | 0 <= k < |ws|
      ensures IsStripped(ws[k].text)
    {
      WindowTextStripped(segs, d, k);
    }
    ResegmentIdentityIff(segs, d);
  }

  /** One window when the transcript ends within the first window length. */
  lemma SingleWindow(segs: seq<Segment>, d: real)
    requires 0.0 < TotalDuration(segs) <= d
    ensures FixedSegments(segs, d)
         == [Window(1, 0.0, TotalDuration(segs), WindowText(segs, 0.0, TotalDuration(segs)))]
  {
    var ws := FixedSegments(segs, d);
    assert |ws| == 1 by {
      FixedSegmentsCount(segs, d);
      if |ws| > 1 {
        assert Boundary(1, d) == d;
        if 1 < |ws| - 1 {
          BoundaryMono(1, |ws| - 1, d);
        }
      }
    }
    WindowFacts(segs, d, 0);
  }

  lemma AssignedPair(a: Segment, b: Segment, lo: real, hi: real)
    ensures Assigned([a, b], lo, hi)
         == (if InWindow(a, lo, hi) then [a] else []) + (if InWindow(b, lo, hi) then [b] else [])
  {
    assert [a, b][..1] == [a];
    assert [a][..0] == [];
    var x := if InWindow(a, lo, hi) then [a] else [];
    assert Assigned([a], lo, hi) == [] + x;
    assert [] + x == x;
  }

  lemma StrippedTextsPair(a: Segment, b: Segment)
    ensures StrippedTexts([a, b]) == [Strip(a.text), Strip(b.text)]
  {
    assert [a, b][..1] == [a];
    assert [a][..0] == [];
    assert StrippedTexts([a]) == [] + [Strip(a.text)];
  }

  /** A lone segment that starts at or after 0 and ends within the first
      window length gives one window, over `[0, end)`, with its stripped text. */
  lemma SingleSegment(seg: Segment, d: real)
    requires 0.0 <= seg.start < seg.end <= d
    ensures FixedSegments([seg], d) == [Window(1, 0.0, seg.end, Strip(seg.text))]
  {
    SingleWindow([seg], d);
    assert Assigned([seg], 0.0, seg.end) == [seg] by {
      assert [seg][..0] == [];
    }
    WindowTextOfOne([seg], 0.0, seg.end, seg);
  }

  /** The window text of a blank segment followed by a stripped one: the
      empty strip of the blank is joined with a space. */
  lemma BlankThenText(segs: seq<Segment>, blank: string, x: string)
    requires AllSpace(blank) && IsStripped(x)
    requires segs == [Segment(0.0, 1.0, blank), Segment(1.0, 2.0, x)]
    ensures WindowText(segs, 0.0, 2.0) == " " + x
  {
    assert Strip(blank) == "" by {
      StripPadded(blank, "", "");
      assert blank + "" + "" == blank;
    }
    StripIdempotent(x);
    AssignedPair(segs[0], segs[1], 0.0, 2.0);
    assert Assigned(segs, 0.0, 2.0) == segs;
    StrippedTextsPair(segs[0], segs[1]);
    assert StrippedTexts(segs) == ["", x];
    assert ["", x][1..] == [x];
    assert Join(["", x]) == "" + " " + x;
    assert "" + " " + x == " " + x;
  }

  /** Without the proviso the round trip fails: a blank segment text strips
      to `""`, `' '.join` then leaves a leading space, and a second pass
      strips it away, so the window's text changes. */
  lemma ResegmentBlankText(segs: seq<Segment>, blank: string, x: string)
    requires AllSpace(blank) && IsStripped(x)
    requires segs == [Segment(0.0, 1.0, blank), Segment(1.0, 2.0, x)]
    ensures FixedSegments(segs, 5.0) == [Window(1, 0.0, 2.0, " " + x)]
    ensures FixedSegments(AsSegments(FixedSegments(segs, 5.0)), 5.0) == [Window(1, 0.0, 2.0, x)]
  {
    BlankThenText(segs, blank, x);
    SingleWindow(segs, 5.0);
    var again := AsSegments(FixedSegments(segs, 5.0));
    assert again == [Segment(0.0, 2.0, " " + x)];
    SingleSegment(again[0], 5.0);
    assert Strip(" " + x) == x by {
      StripPadded(" ", x, "");
      assert " " + x + "" == " " + x;
    }
  }

  /** A window that gets a single segment carries that segment's stripped text. */
  lemma WindowTextOfOne(segs: seq<Segment>, lo: real, hi: real, seg: Segment)
    requires Assigned(segs, lo, hi) == [seg]
    ensures WindowText(segs, lo, hi) == Strip(seg.text)
  {
    assert [seg][..0] == [];
    assert StrippedTexts([seg]) == [] + [Strip(seg.text)];
  }

  /** Two back-to-back 5-second segments with the default window length:
      each lands in its own window and keeps its (already stripped) text. */
  lemma TwoSegmentExample(segs: seq<Segment>, x: string, y: string)
    requires IsStripped(x) && IsStripped(y)
    requires segs == [Segment(0.0, 5.0, x), Segment(5.0, 10.0, y)]
    ensures FixedSegments(segs) == [Window(1, 0.0, 5.0, x), Window(2, 5.0, 10.0, y)]
  {
    TwoSegmentSpans();
    TwoSegmentTexts(segs, x, y);
  }

  lemma TwoSegmentTexts(segs: seq<Segment>, x: string, y: string)
    requires IsStripped(x) && IsStripped(y)
    requires segs == [Segment(0.0, 5.0, x), Segment(5.0, 10.0, y)]
    ensures WindowText(segs, 0.0, 5.0) == x && WindowText(segs, 5.0, 10.0) == y
  {
    assert WindowText(segs, 0.0, 5.0) == x by {
      AssignedPair(segs[0], segs[1], 0.0, 5.0);
      WindowTextOfOne(segs, 0.0, 5.0, segs[0]);
      StripIdempotent(x);
    }
    assert WindowText(segs, 5.0, 10.0) == y by {
      AssignedPair(segs[0], segs[1], 5.0, 10.0);
      WindowTextOfOne(segs, 5.0, 10.0, segs[1]);
      StripIdempotent(y);
    }
  }

  lemma TwoSegmentSpans()
    ensures SpansFrom(5.0, 10.0, 0.0) == [Span(0.0, 5.0), Span(5.0, 10.0)]
  {
    assert SpansFrom(5.0, 10.0, 5.0) == [Span(5.0, 10.0)] + SpansFrom(5.0, 10.0, 10.0);
  }
}
