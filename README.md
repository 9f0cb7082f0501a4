# Fixed-window transcript segmenter, in Dafny

A model of `scripts/whisper_fixed_segments.py`, the script that turns the
segments of a Whisper transcript (each with a `start`, an `end` and a
`text`) into windows of a fixed length `D`, and writes those windows as a
SubRip (SRT) subtitle file.

- `create_fixed_segments` lays windows `[t, min(t + D, T))` from 0 up to
  `T`, the `end` of the last segment. Each segment goes to the window
  whose half-open range holds its midpoint. A window's text is the
  stripped texts of its segments joined by single spaces. Ids count up
  from 1.
- `save_as_srt` splits each window's start and end into hours, minutes
  and seconds. It then writes one entry per window: the id, `start -->
  end`, the text, and a blank line.

Layout:

- `text.dfy` (module `Text`): Python's `str.strip()`, over the characters
  for which `str.isspace()` holds, and `' '.join`.
- `segmenter.dfy` (module `Segmenter`):
  - the `Segment` and `Window` datatypes;
  - the specification function `FixedSegments`;
  - the two loops of `create_fixed_segments`, as the methods
    `CreateFixedSegments` (the outer `while`) and `CollectWindowText` (the
    inner `for`), each proved equal to the specification.
- `segmenter_properties.dfy` (module `SegmenterProperties`):
  - a closed form of the windows;
  - the window count `ceil(T / D)`;
  - the tiling of `[0, T)`, window lengths and ids;
  - where each segment goes;
  - what happens when the output is segmented again.
- `srt.dfy` (module `Srt`):
  - Python's floor `//` and `%`;
  - the exact hours/minutes/seconds split;
  - the four-line entry layout;
  - a reader that recovers the windows from the lines;
  - the file, as a class that `save_as_srt` writes to step by step.

Times are exact reals. The loop only terminates when `D > 0` or `T <= 0`,
so that is the precondition of `CreateFixedSegments`: with `D <= 0` and
`T > 0`, `current_time` never grows.

Segmenting the output again with the same `D` keeps every window's id,
start and end, and strips its text (`ResegmentStrips`). So it returns the
same windows exactly when every window text is already stripped
(`ResegmentIdentityIff`). That holds, for example, provided no segment text
strips to the empty string (`ResegmentIsIdentity`). A blank text alone in
its window is harmless: it strips to `""`, which is the window text. A blank
text joined with at least one other part leaves an extra space. When the
blank part comes first or last in its window, that space sits at an edge
of the window text, and the second pass strips it away.
`ResegmentBlankText` shows this with a blank segment followed by a
non-blank one.

## Model

| member | source | states |
|---|---|---|
| `Text.Strip` | scripts/whisper_fixed_segments.py:32 | the stripped text has no whitespace at either end |
| `Text.StripSlice` | scripts/whisper_fixed_segments.py:32 | the result of `strip` is a slice of the input with only whitespace before and after it |
| `Text.StripPadded` | scripts/whisper_fixed_segments.py:32 | `strip` removes any whitespace padding around a string that has none at its ends, and nothing more |
| `Text.StripIdempotent` | scripts/whisper_fixed_segments.py:32 | `strip` is the identity on stripped strings and idempotent |
| `Text.JoinLength` | scripts/whisper_fixed_segments.py:35 | the length of `' '.join(parts)` is the parts' total length plus one space between each two neighbours |
| `Text.JoinParts` | scripts/whisper_fixed_segments.py:35 | in `' '.join(parts)`, part `i` appears unchanged after the earlier parts and their spaces, a single space follows every part but the last, and the last part ends the string |
| `Text.JoinStripped` | scripts/whisper_fixed_segments.py:35 | joining non-empty stripped parts gives a stripped string |
| `Segmenter.StrippedTextsAt` | scripts/whisper_fixed_segments.py:32 | the collected texts are the segments' texts, each stripped, in the same order and number |
| `Segmenter.StepMeasure` | scripts/whisper_fixed_segments.py:23-24 | while `current_time < T` with `D > 0`, each full step uses up exactly one unit of `(T - current_time) / D`, so the loop terminates |
| `Segmenter.CollectWindowText` | scripts/whisper_fixed_segments.py:25-35 | the inner loop's text is the join of the stripped texts of the segments whose midpoint lies in `[lo, hi)`, in input order |
| `Segmenter.CreateFixedSegments` | scripts/whisper_fixed_segments.py:6-47 | the outer loop returns exactly the windows of the specification `FixedSegments`, for every `D > 0`, and for any `D` when `T <= 0`; `D` defaults to 5 seconds |
| `SegmenterProperties.SpansFromElements` | scripts/whisper_fixed_segments.py:23-24 | from the `k`-th boundary on, the loop visits the ranges `[j*D, min((j+1)*D, T))` for `j = k, k+1, ...` |
| `SegmenterProperties.SpansFromCount` | scripts/whisper_fixed_segments.py:23-24 | the loop stops after the first boundary at or beyond `T`, and not before |
| `SegmenterProperties.FixedSegmentsCount` | scripts/whisper_fixed_segments.py:17-24 | with `D > 0` there are no windows when `T <= 0`, and otherwise `n` windows with `(n-1)*D < T <= n*D` |
| `SegmenterProperties.FixedSegmentsClosedForm` | scripts/whisper_fixed_segments.py:20-45 | there are `ceil(T / D)` windows (none when `T <= 0`); window `k` is `[k*D, min((k+1)*D, T))` with id `k + 1` and the text of that range |
| `SegmenterProperties.NoWindowsWithoutDuration` | scripts/whisper_fixed_segments.py:17-23 | an empty transcript, or one whose last segment ends at or before 0, gives no windows for any `D` |
| `SegmenterProperties.WindowFacts` | scripts/whisper_fixed_segments.py:24-45 | window `k` has id `k + 1`, lies in `[0, T)`, starts `D` after the previous one (the first at 0), and ends `D` after its start except the last, which ends at `T` |
| `SegmenterProperties.WindowsTile` | scripts/whisper_fixed_segments.py:20-44 | there is a window iff `T > 0`; the first starts at 0, each starts where the previous one ended, and the last ends at `T` |
| `SegmenterProperties.WindowLengths` | scripts/whisper_fixed_segments.py:24 | every window has `start < end <= start + D`, and every window but the last is exactly `D` long |
| `SegmenterProperties.WindowIds` | scripts/whisper_fixed_segments.py:21-45 | window ids are 1, 2, ..., n in output order |
| `SegmenterProperties.WindowTexts` | scripts/whisper_fixed_segments.py:25-35 | a window's text joins the stripped texts of exactly the segments whose midpoints it holds, in input order, and is `""` when it holds none |
| `SegmenterProperties.WindowContains` | scripts/whisper_fixed_segments.py:30-31 | window `k` holds time `m` iff `0 <= m < T` and `k = floor(m / D)` |
| `SegmenterProperties.MidpointWindow` | scripts/whisper_fixed_segments.py:28-31 | a time in `[0, T)` lies in exactly one window, number `floor(m / D)`, and a time outside `[0, T)` lies in none |
| `SegmenterProperties.AssignedMembers` | scripts/whisper_fixed_segments.py:28-32 | a window collects exactly the segments whose midpoint lies in its range |
| `SegmenterProperties.AssignedEmpty` | scripts/whisper_fixed_segments.py:28-32 | a window collects nothing iff no segment's midpoint lies in its range |
| `SegmenterProperties.AssignedAt` | scripts/whisper_fixed_segments.py:28-32 | segment `i` is collected between the segments before and after it, exactly when its midpoint lies in the range |
| `SegmenterProperties.SegmentAssignment` | scripts/whisper_fixed_segments.py:17-32 | a segment goes into window `floor(mid / D)` and no other when `0 <= mid < T`, and into none otherwise (`T` being the last segment's end, not the largest end) |
| `SegmenterProperties.OnlyOwnWindow` | scripts/whisper_fixed_segments.py:28-32 | read back as a segment, window `k` falls in window `k` and no other |
| `SegmenterProperties.WindowTextStripped` | scripts/whisper_fixed_segments.py:32-35 | when no segment text strips to `""`, every window's text is already stripped |
| `SegmenterProperties.ResegmentStrips` | scripts/whisper_fixed_segments.py:13-47 | segmenting the output again with the same `D` gives as many windows, each with the same id, start and end and its text stripped |
| `SegmenterProperties.ResegmentIdentityIff` | scripts/whisper_fixed_segments.py:13-47 | segmenting the output again with the same `D` gives the same windows if and only if every window text is already stripped |
| `SegmenterProperties.ResegmentIsIdentity` | scripts/whisper_fixed_segments.py:13-47 | segmenting the output again with the same `D` gives the same windows when no segment text strips to `""` |
| `SegmenterProperties.ResegmentBlankText` | scripts/whisper_fixed_segments.py:32-35 | a blank segment before a stripped text `x` gives the text `" " + x`, and segmenting again changes it to `x` |
| `SegmenterProperties.SingleWindow` | scripts/whisper_fixed_segments.py:23-24 | a transcript ending in `(0, D]` gives exactly one window, `[0, T)` |
| `SegmenterProperties.SingleSegment` | scripts/whisper_fixed_segments.py:23-45 | a lone segment inside `[0, D]` gives one window over `[0, end)` carrying its stripped text |
| `SegmenterProperties.TwoSegmentExample` | scripts/whisper_fixed_segments.py:6-45 | two back-to-back 5-second segments with the default `D` of 5 seconds give two windows, each with its own segment's text |
| `Srt.FloorDivIs` | scripts/whisper_fixed_segments.py:54-55 | Python's `x // m` for `m > 0` is the one integer `q` with `q*m <= x < (q+1)*m` |
| `Srt.FloorMod` | scripts/whisper_fixed_segments.py:55-56 | Python's `x % m` for `m > 0` lies in `[0, m)` and completes `x == (x // m)*m + x % m` |
| `Srt.SplitTimeExact` | scripts/whisper_fixed_segments.py:54-60 | the split gives `h*3600 + m*60 + s == t` with `0 <= m < 60` and `0 <= s < 60`, and `h >= 0` when `t >= 0` |
| `Srt.SplitTimeOfClock` | scripts/whisper_fixed_segments.py:54-60 | a reading with minutes and seconds in range is the split of the time it stands for, so the split is the only such reading |
| `Srt.SrtLinesAppend` | scripts/whisper_fixed_segments.py:52-65 | the file for two lists of windows is the file for the first followed by the file for the second |
| `Srt.SrtLinesLayout` | scripts/whisper_fixed_segments.py:62-65 | the file has four lines per window, and lines `4k` to `4k+3` are window `k`'s id, `start --> end` split times, text and a blank line |
| `Srt.ParseSrtLines` | scripts/whisper_fixed_segments.py:62-65 | reading the file back gives the windows exactly: ids, start and end times, and texts |
| `Srt.SrtLinesOfParse` | scripts/whisper_fixed_segments.py:62-65 | every file that reads as some windows is the file written for those windows |
| `Srt.SrtFile.Open` | scripts/whisper_fixed_segments.py:51 | opening for writing starts from an empty file |
| `Srt.SrtFile.Write` | scripts/whisper_fixed_segments.py:62-65 | a write appends its lines after those already written |
| `Srt.SaveAsSrt` | scripts/whisper_fixed_segments.py:49-65 | the written file is a fresh file holding exactly the entries of all windows, in list order |

## Left out

- The two test files under `tests/` are Selenium/Behave UI steps against a web application that is not in the repository. They contain no implementation.
- The file and command-line plumbing is not modelled: reading and dumping JSON, `sys.argv`, `print`, exit codes, and deriving output file names with `str.replace`. The model takes the already parsed list of segments as input.
- A missing `'segments'` key raises Python's `KeyError`. The model starts from the list itself, so it has no such case.
- Floating point is not modelled. Times are exact reals, so the model has no rounding drift from `current_time = segment_end`. It also does not model the case where `current_time + D == current_time` in floating point and the loop would not advance.
- The digits of the timing line are not modelled: the `:02d` zero padding and the `:06.3f` rounding to milliseconds. The model keeps the split hours, minutes and exact seconds as values instead. In the source, the rounding happens after the split, so a seconds value of 59.9995 or more prints as `60.000`.
- A window text that contains a line break would add lines to the SRT file. The model keeps each text as one text line.
- `Strip` removes the characters for which Python's `str.isspace()` holds. They are listed one by one, not derived from the Unicode database.
- `CreateFixedSegments`: requires `D > 0` or `T <= 0`. With `D <= 0` and `T > 0` the source loops forever, and a terminating model cannot represent that.
