/** The two string operations the segmenter relies on: Python's `str.strip()`
    (no arguments) and `' '.join(parts)`. */
module Text {

  /** The characters for which Python's `str.isspace()` holds; `str.strip()`
      with no argument removes exactly these from both ends. */
  predicate IsSpace(c: char) {
    c == ' ' || ('\t' <= c <= '\r') || ('\U{1c}' <= c <= '\U{1f}')
    || c == '\U{85}' || c == '\U{a0}' || c == '\U{1680}'
    || ('\U{2000}' <= c <= '\U{200a}') || c == '\U{2028}' || c == '\U{2029}'
    || c == '\U{202f}' || c == '\U{205f}' || c == '\U{3000}'
  }

  predicate AllSpace(s: string) {
    forall i :: 0 <= i < |s| ==> IsSpace(s[i])
  }

  /** Neither end of `s` is whitespace. */
  predicate IsStripped(s: string) {
    s == [] || (!IsSpace(s[0]) && !IsSpace(s[|s| - 1]))
  }

  /** `s.lstrip()`: the longest suffix of `s` that does not start with whitespace. */
  function StripStart(s: string): (r: string)
    ensures |r| <= |s|
    ensures r == [] || !IsSpace(r[0])
  {
    if s != [] && IsSpace(s[0]) then StripStart(s[1..]) else s
  }

  /** `s.rstrip()`: the longest prefix of `s` that does not end with whitespace. */
  function StripEnd(s: string): (r: string)
    ensures |r| <= |s|
    ensures r == [] || !IsSpace(r[|r| - 1])
  {
    if s != [] && IsSpace(s[|s| - 1]) then StripEnd(s[..|s| - 1]) else s
  }

  /** `lstrip` removes a prefix made of whitespace only. */
  lemma {:induction false} StripStartSuffix(s: string)
    ensures var r := StripStart(s);
            r == s[|s| - |r|..] && AllSpace(s[..|s| - |r|])
  {
    if s != [] && IsSpace(s[0]) {
      StripStartSuffix(s[1..]);
    }
  }

  /** `rstrip` removes a suffix made of whitespace only. */
  lemma {:induction false} StripEndPrefix(s: string)
    ensures var r := StripEnd(s);
            r == s[..|r|] && AllSpace(s[|r|..])
  {
    if s != [] && IsSpace(s[|s| - 1]) {
      StripEndPrefix(s[..|s| - 1]);
      var r := StripEnd(s);
      assert s[|r|..] == s[..|s| - 1][|r|..] + [s[|s| - 1]];
    }
  }

  /** `s.strip()`: `s` with its leading and trailing whitespace removed. */
  function Strip(s: string): (r: string)
    ensures IsStripped(r)
  {
    var a := StripStart(s);
    StripEndPrefix(a);
    StripEnd(a)
  }

  /** What `strip` keeps: a stripped slice of `s` with only whitespace
      before and after it. */
  lemma StripSlice(s: string)
    ensures var r := Strip(s);
            exists i :: 0 <= i <= |s| - |r| && r == s[i..i + |r|]
                        && AllSpace(s[..i]) && AllSpace(s[i + |r|..])
  {
    var a := StripStart(s);
    StripStartSuffix(s);
    StripEndPrefix(a);
    var r := StripEnd(a);
    var i := |s| - |a|;
    assert a == s[i..];
    assert s[i..i + |r|] == a[..|r|];
    assert s[i + |r|..] == a[|r|..];
    assert AllSpace(s[..i]) && AllSpace(s[i + |r|..]);
    assert Strip(s) == r;
  }

  lemma {:induction false} StripStartPadded(p: string, x: string)
    requires AllSpace(p)
    requires x == [] || !IsSpace(x[0])
    ensures StripStart(p + x) == x
  {
    if p != [] {
      assert (p + x)[1..] == p[1..] + x;
      StripStartPadded(p[1..], x);
    }
  }

  lemma {:induction false} StripEndPadded(x: string, q: string)
    requires AllSpace(q)
    requires x == [] || !IsSpace(x[|x| - 1])
    ensures StripEnd(x + q) == x
  {
    if q != [] {
      assert (x + q)[..|x + q| - 1] == x + q[..|q| - 1];
      StripEndPadded(x, q[..|q| - 1]);
    }
  }

  /** Stripping undoes any whitespace padding of an already stripped string:
      the strip is exactly the non-blank core. */
  lemma StripPadded(p: string, s: string, q: string)
    requires AllSpace(p) && AllSpace(q) && IsStripped(s)
    ensures Strip(p + s + q) == s
  {
    if s == [] {
      assert p + s + q == (p + q) + [];
      StripStartPadded(p + q, []);
    } else {
      assert p + s + q == p + (s + q);
      StripStartPadded(p, s + q);
      StripEndPadded(s, q);
    }
  }

  /** `strip` is idempotent, and the identity on stripped strings. */
  lemma StripIdempotent(s: string)
    ensures IsStripped(s) ==> Strip(s) == s
    ensures Strip(Strip(s)) == Strip(s)
  {
    assert [] + s + [] == s;
    if IsStripped(s) {
      StripPadded([], s, []);
    }
    var r := Strip(s);
    assert [] + r + [] == r;
    StripPadded([], r, []);
  }

  function TotalLength(parts: seq<string>): nat {
    if parts == [] then 0 else |parts[0]| + TotalLength(parts[1..])
  }

  /** `' '.join(parts)`: the parts in order, a single space between neighbours. */
  function Join(parts: seq<string>): string {
    if |parts| == 0 then ""
    else if |parts| == 1 then parts[0]
    else parts[0] + " " + Join(parts[1..])
  }

  /** The join holds every character of every part, plus one space between
      each two neighbouring parts. */
  lemma {:induction false} JoinLength(parts: seq<string>)
    ensures |Join(parts)| == TotalLength(parts) + (if parts == [] then 0 else |parts| - 1)
  {
    if |parts| > 1 {
      JoinLength(parts[1..]);
    }
  }

  /** Where part `i` starts in `Join(parts)`: each earlier part and the
      space after it come first. */
  function Offset(parts: seq<string>, i: nat): nat
    requires i <= |parts|
  {
    if i == 0 then 0 else |parts[0]| + 1 + Offset(parts[1..], i - 1)
  }

  /** The contents of the join: part `i` sits unchanged at `Offset(parts, i)`,
      a single space follows every part but the last, and the last part ends
      the string. */
  lemma {:induction false} JoinParts(parts: seq<string>, i: nat)
    requires i < |parts|
    ensures i < |parts| - 1 ==> Offset(parts, i) + |parts[i]| < |Join(parts)|
    ensures i == |parts| - 1 ==> Offset(parts, i) + |parts[i]| == |Join(parts)|
    ensures Join(parts)[Offset(parts, i)..Offset(parts, i) + |parts[i]|] == parts[i]
    ensures i < |parts| - 1 ==> Join(parts)[Offset(parts, i) + |parts[i]|] == ' '
  {
    if |parts| > 1 {
      var head := parts[0] + " ";
      var rest := Join(parts[1..]);
      assert Join(parts) == head + rest;
      if i == 0 {
        assert (head + rest)[..|parts[0]|] == parts[0];
      } else {
        JoinParts(parts[1..], i - 1);
        assert parts[1..][i - 1] == parts[i];
        ShiftedSlice(head, rest, Offset(parts[1..], i - 1), |parts[i]|);
      }
    }
  }

  /** A slice of `b` is found `|a|` further on in `a + b`. */
  lemma ShiftedSlice(a: string, b: string, o: nat, n: nat)
    requires o + n <= |b|
    ensures (a + b)[|a| + o..|a| + o + n] == b[o..o + n]
    ensures o + n < |b| ==> (a + b)[|a| + o + n] == b[o + n]
  {
    assert (a + b)[|a|..] == b;
  }

  /** Joining non-empty stripped parts gives a stripped string. */
  lemma {:induction false} JoinStripped(parts: seq<string>)
    requires forall i :: 0 <= i < |parts| ==> parts[i] != [] && IsStripped(parts[i])
    ensures IsStripped(Join(parts))
  {
    if |parts| > 1 {
      JoinStripped(parts[1..]);
      JoinLength(parts[1..]);
      var rest := Join(parts[1..]);
      assert rest != [];
      var r := parts[0] + " " + rest;
      assert r[0] == parts[0][0];
      assert r[|r| - 1] == rest[|rest| - 1];
    }
  }
}
