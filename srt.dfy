/** The SubRip (SRT) output of the segmenter: each time is split into
    hours, minutes and seconds with Python's floor division and modulo, and
    each window becomes one four-line entry. Lines are kept as typed values
    rather than as digits. */
module Srt {
  import opened Segmenter

  datatype Option<T> = None | Some(value: T)

  // ---------------------------------------------------------------------
  // Python's `//` and `%` on floats

  /** `int(x // m)`: the floor of `x / m` (Python's `//` floors, and the
      result is already integral, so `int` changes nothing). */
  function FloorDiv(x: real, m: real): int
    requires m > 0.0
  {
    (x / m).Floor
  }

  /** `FloorDiv(x, m)` is the one `q` with `q * m <= x < (q + 1) * m`. */
  lemma FloorDivIs(x: real, m: real, q: int)
    requires m > 0.0
    ensures FloorDiv(x, m) == q <==> q as real * m <= x < (q + 1) as real * m
  {
    var r := x / m;
    assert r * m == x;
    assert q as real * m <= x <==> q as real <= r;
    assert x < (q + 1) as real * m <==> r < (q + 1) as real;
  }

  /** `x % m`: Python's modulo takes the sign of `m`, so for `m > 0` it lies
      in `[0, m)` whatever the sign of `x`. */
  function FloorMod(x: real, m: real): (r: real)
    requires m > 0.0
    ensures 0.0 <= r < m
    ensures x == FloorDiv(x, m) as real * m + r
  {
    FloorDivIs(x, m, FloorDiv(x, m));
    x - FloorDiv(x, m) as real * m
  }

  // ---------------------------------------------------------------------
  // Splitting a time into hours, minutes and seconds

  /** A time as the SRT line shows it. */
  datatype Clock = Clock(hours: int, minutes: int, seconds: real)

  /** The time a clock reading stands for. */
  function ClockSeconds(c: Clock): real {
    c.hours as real * 3600.0 + c.minutes as real * 60.0 + c.seconds
  }

  /** Minutes and seconds in their ranges; hours are unbounded. */
  predicate ClockNormal(c: Clock) {
    0 <= c.minutes < 60 && 0.0 <= c.seconds < 60.0
  }

  /** The split `save_as_srt` applies to a start or end time:
      `t // 3600`, `(t % 3600) // 60` and `t % 60`. */
  function SplitTime(t: real): Clock {
    Clock(FloorDiv(t, 3600.0), FloorDiv(FloorMod(t, 3600.0), 60.0), FloorMod(t, 60.0))
  }

  /** The split is exact and normal: `h * 3600 + m * 60 + s == t` with
      `0 <= m < 60` and `0 <= s < 60`, and a time that is not negative has
      hours that are not negative. */
  lemma SplitTimeExact(t: real)
    ensures ClockNormal(SplitTime(t))
    ensures ClockSeconds(SplitTime(t)) == t
    ensures 0.0 <= t ==> 0 <= SplitTime(t).hours
  {
    var h := FloorDiv(t, 3600.0);
    var r := FloorMod(t, 3600.0);
    var m := FloorDiv(r, 60.0);
    FloorDivIs(r, 60.0, m);
    FloorDivIs(t, 3600.0, h);
    assert 0 <= m < 60;
    FloorDivIs(t, 60.0, 60 * h + m);
    if 0.0 <= t {
      FloorDivIs(t, 3600.0, -1);
    }
  }

  /** A normal clock reading is split back into itself: the split is the
      only normal reading of a time. */
  lemma SplitTimeOfClock(c: Clock)
    requires ClockNormal(c)
    ensures SplitTime(ClockSeconds(c)) == c
  {
    var t := ClockSeconds(c);
    FloorDivIs(t, 3600.0, c.hours);
    var r := FloorMod(t, 3600.0);
    assert r == c.minutes as real * 60.0 + c.seconds;
    FloorDivIs(r, 60.0, c.minutes);
    FloorDivIs(t, 60.0, 60 * c.hours + c.minutes);
  }

  // ---------------------------------------------------------------------
  // The entries

  /** One line of the SRT output. */
  datatype SrtLine =
    | IndexLine(id: int)
    | TimingLine(from: Clock, to: Clock)
    | TextLine(text: string)
    | BlankLine

  /** The entry for one window: its id, `start --> end`, its text and a
      blank line. */
  function EntryLines(w: Window): seq<SrtLine> {
    [IndexLine(w.id), TimingLine(SplitTime(w.start), SplitTime(w.end)), TextLine(w.text), BlankLine]
  }

  /** The whole file: the windows' entries in list order. */
  function SrtLines(ws: seq<Window>): seq<SrtLine> {
    if ws == [] then [] else EntryLines(ws[0]) + SrtLines(ws[1..])
  }

  lemma {:induction false} SrtLinesAppend(a: seq<Window>, b: seq<Window>)
    ensures SrtLines(a + b) == SrtLines(a) + SrtLines(b)
  {
    if a == [] {
      assert a + b == b;
    } else {
      assert (a + b)[1..] == a[1..] + b;
      SrtLinesAppend(a[1..], b);
    }
  }

  /** The file has four lines per window, and lines `4k` to `4k + 3` are
      window `k`'s id, timing, text and blank line. */
  lemma {:induction false} SrtLinesLayout(ws: seq<Window>)
    ensures |SrtLines(ws)| == 4 * |ws|
    ensures forall k, j :: 0 <= k < |ws| && 0 <= j < 4 ==>
              SrtLines(ws)[4 * k + j] == EntryLines(ws[k])[j]
  {
    if ws != [] {
      SrtLinesLayout(ws[1..]);
      var rest := SrtLines(ws[1..]);
      forall k, j | 0 <= k < |ws| && 0 <= j < 4
        ensures SrtLines(ws)[4 * k + j] == EntryLines(ws[k])[j]
      {
        if k > 0 {
          assert SrtLines(ws)[4 * k + j] == rest[4 * (k - 1) + j];
          assert ws[1..][k - 1] == ws[k];
        }
      }
    }
  }

  /** Reads an SRT file back into windows: four lines per entry, the times
      recovered from their clock readings; `None` for anything that is not
      a sequence of well-formed entries. */
  function ParseSrt(lines: seq<SrtLine>): Option<seq<Window>>
    decreases |lines|
  {
    if lines == [] then Some([])
    else if |lines| < 4 then None
    else
      match (lines[0], lines[1], lines[2], lines[3])
      case (IndexLine(id), TimingLine(a, b), TextLine(x), BlankLine) =>
        if ClockNormal(a) && ClockNormal(b) then
          match ParseSrt(lines[4..])
          case Some(rest) => Some([Window(id, ClockSeconds(a), ClockSeconds(b), x)] + rest)
          case None => None
        else None
      case _ => None
  }

  /** The file determines the windows: reading it back gives them exactly. */
  lemma {:induction false} ParseSrtLines(ws: seq<Window>)
    ensures ParseSrt(SrtLines(ws)) == Some(ws)
  {
    if ws != [] {
      var w := ws[0];
      SplitTimeExact(w.start);
      SplitTimeExact(w.end);
      ParseSrtLines(ws[1..]);
      assert SrtLines(ws)[4..] == SrtLines(ws[1..]);
      assert [w] + ws[1..] == ws;
    }
  }

  /** ... and every well-formed file is the one written for the windows it
      reads as. */
  lemma {:induction false} SrtLinesOfParse(lines: seq<SrtLine>, ws: seq<Window>)
    requires ParseSrt(lines) == Some(ws)
    ensures SrtLines(ws) == lines
    decreases |lines|
  {
    if lines != [] {
      match (lines[0], lines[1], lines[2], lines[3])
      case (IndexLine(id), TimingLine(a, b), TextLine(x), BlankLine) =>
        var rest := ParseSrt(lines[4..]).value;
        SrtLinesOfParse(lines[4..], rest);
        SplitTimeOfClock(a);
        SplitTimeOfClock(b);
        assert ws == [Window(id, ClockSeconds(a), ClockSeconds(b), x)] + rest;
        assert ws[1..] == rest;
        assert lines == lines[..4] + lines[4..];
    }
  }

  // ---------------------------------------------------------------------
  // Writing the file

  /** The output file, opened for writing: the lines written so far. */
  class SrtFile {
    var lines: seq<SrtLine>

    /** `open(output_file, 'w')` starts from an empty file. */
    constructor Open()
      ensures lines == []
    {
      lines := [];
    }

    /** `f.write(...)` appends. */
    method Write(more: seq<SrtLine>)
      modifies this
      ensures lines == old(lines) + more
    {
      lines := lines + more;
    }
  }

  /** `save_as_srt(segments, output_file)`: split both times of each window
      and write its entry, in list order. */
  method SaveAsSrt(ws: seq<Window>) returns (f: SrtFile)
    ensures fresh(f)
    ensures f.lines == SrtLines(ws)
  {
    f := new SrtFile.Open();
    for k := 0 to |ws|
      invariant f.lines == SrtLines(ws[..k])
    {
      var seg := ws[k];
      var startHours := FloorDiv(seg.start, 3600.0);
      var startMins := FloorDiv(FloorMod(seg.start, 3600.0), 60.0);
      var startSecs := FloorMod(seg.start, 60.0);
      var endHours := FloorDiv(seg.end, 3600.0);
      var endMins := FloorDiv(FloorMod(seg.end, 3600.0), 60.0);
      var endSecs := FloorMod(seg.end, 60.0);
      f.Write([IndexLine(seg.id)]);
      f.Write([TimingLine(Clock(startHours, startMins, startSecs), Clock(endHours, endMins, endSecs))]);
      f.Write([TextLine(seg.text), BlankLine]);
      SrtLinesAppend(ws[..k], [seg]);
      assert ws[..k + 1] == ws[..k] + [seg];
      assert SrtLines([seg]) == EntryLines(seg) + SrtLines([]);
    }
    assert ws[..|ws|] == ws;
  }
}
