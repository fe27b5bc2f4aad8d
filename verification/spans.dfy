/** Time ranges as the engine holds them: `(start, end)` pairs of minutes
    (main.py:49, 66), read from and written back to `"H-H"` text
    (main.py:48, 65, 76). */
module Spans {
  import opened Options
  import opened Text

  const MinutesPerHour: int := 60

  /** `day_end` of main.py:45. */
  const DayEnd: int := 24 * 60

  /** A half-open range `[start, end)` of minutes. Nothing forces
      `start < end`: the source validates nothing. */
  datatype Span = Span(start: int, end: int)

  function Max(a: int, b: int): int { if a >= b then a else b }

  function Min(a: int, b: int): int { if a <= b then a else b }

  predicate Contains(p: Span, m: int) {
    p.start <= m < p.end
  }

  /** Minute `m` lies in some range of `ps`. */
  predicate Covers(ps: seq<Span>, m: int) {
    exists i :: 0 <= i < |ps| && Contains(ps[i], m)
  }

  lemma CoversAppend(a: seq<Span>, b: seq<Span>, m: int)
    ensures Covers(a + b, m) <==> Covers(a, m) || Covers(b, m)
  {
    if Covers(a + b, m) {
      var i :| 0 <= i < |a + b| && Contains((a + b)[i], m);
      if i >= |a| {
        assert b[i - |a|] == (a + b)[i];
      }
    }
    if Covers(b, m) {
      var i :| 0 <= i < |b| && Contains(b[i], m);
      assert (a + b)[i + |a|] == b[i];
    }
    if Covers(a, m) {
      var i :| 0 <= i < |a| && Contains(a[i], m);
      assert (a + b)[i] == a[i];
    }
  }

  lemma CoversCons(ps: seq<Span>, m: int)
    requires |ps| > 0
    ensures Covers(ps, m) <==> Contains(ps[0], m) || Covers(ps[1..], m)
  {
    assert ps == [ps[0]] + ps[1..];
    CoversAppend([ps[0]], ps[1..], m);
  }

  /** A range that is not reversed (it may be empty). */
  predicate Forward(p: Span) {
    p.start <= p.end
  }

  predicate AllForward(ps: seq<Span>) {
    forall i :: 0 <= i < |ps| ==> Forward(ps[i])
  }

  /** Each range ends no later than every later range starts: the list is
      ordered by start and no two ranges share a minute. */
  predicate Chained(ps: seq<Span>) {
    forall i, j :: 0 <= i < j < |ps| ==> ps[i].end <= ps[j].start
  }

  /** Every range has positive width. */
  predicate AllNonEmpty(ps: seq<Span>) {
    forall i :: 0 <= i < |ps| ==> ps[i].start < ps[i].end
  }

  /** Every range starts no later than the end of the day. */
  predicate StartsWithinDay(ps: seq<Span>) {
    forall i :: 0 <= i < |ps| ==> ps[i].start <= DayEnd
  }

  /** Every range lies inside `[0, DayEnd]`. */
  predicate WithinDay(ps: seq<Span>) {
    forall i :: 0 <= i < |ps| ==> 0 <= ps[i].start && ps[i].end <= DayEnd
  }

  /** Both ends are non-negative whole hours, as every parsed range is. */
  predicate Aligned(p: Span) {
    p.start >= 0 && p.end >= 0 && p.start % MinutesPerHour == 0 && p.end % MinutesPerHour == 0
  }

  predicate AllAligned(ps: seq<Span>) {
    forall i :: 0 <= i < |ps| ==> Aligned(ps[i])
  }

  /** `start, end = map(int, text.split("-"))` followed by `(start*60, end*60)`;
      `None` where Python raises (not exactly two pieces, or a piece `int()`
      rejects). */
  function ParseRange(text: string): (r: Option<Span>)
    ensures r.Some? ==> Aligned(r.value)
    ensures r.Some? ==> |Split(text, '-')| == 2
  {
    var parts := Split(text, '-');
    if |parts| != 2 then None
    else
      var start :- PyInt(parts[0]);
      var end :- PyInt(parts[1]);
      HoursToMinutes(start);
      HoursToMinutes(end);
      Some(Span(start * MinutesPerHour, end * MinutesPerHour))
  }

  /** A text with exactly one `-` is read as its two halves, each through
      `int()`, in hours. */
  lemma ParseRangeOfTwo(a: string, b: string)
    requires '-' !in a && '-' !in b
    ensures ParseRange(a + "-" + b)
            == if PyInt(a).Some? && PyInt(b).Some?
               then Some(Span(PyInt(a).value * MinutesPerHour, PyInt(b).value * MinutesPerHour))
               else None
  {
    SplitTwo(a, b, '-');
  }

  /** Two plain digit runs around a `-` give their values in minutes. */
  lemma ParseRangeDigits(a: string, b: string)
    requires |a| > 0 && AllDigits(a) && |b| > 0 && AllDigits(b)
    ensures ParseRange(a + "-" + b)
            == Some(Span(DecimalValue(a) * MinutesPerHour, DecimalValue(b) * MinutesPerHour))
  {
    assert '-' !in a by {
      assert forall i :: 0 <= i < |a| ==> IsDigit(a[i]);
    }
    assert '-' !in b by {
      assert forall i :: 0 <= i < |b| ==> IsDigit(b[i]);
    }
    ParseRangeOfTwo(a, b);
    PyIntOfDigits(a);
    PyIntOfDigits(b);
  }

  /** The text `a-b`, for `a` and `b` as `str()` writes hours `h` and `k`,
      reads as `(h*60, k*60)`. */
  lemma ParseHours(h: nat, k: nat, a: string, b: string)
    requires NatToDecimal(h) == a && NatToDecimal(k) == b
    ensures ParseRange(a + "-" + b) == Some(Span(h * MinutesPerHour, k * MinutesPerHour))
  {
    ParseRangeDigits(a, b);
  }

  /** The range `(h*60, k*60)` is written as `a-b`. */
  lemma RenderHours(h: nat, k: nat, a: string, b: string)
    requires NatToDecimal(h) == a && NatToDecimal(k) == b
    ensures RenderSpan(Span(h * MinutesPerHour, k * MinutesPerHour)) == a + "-" + b
  {
    HoursToMinutes(h);
    HoursToMinutes(k);
  }

  /** A range written backwards is read backwards: `"12-9"` becomes
      `(720, 540)`, accepted without complaint. */
  lemma ParseBackwards()
    ensures ParseRange("12-9") == Some(Span(720, 540))
  {
    TwoDigits(12);
    ParseHours(12, 9, "12", "9");
    assert "12-9" == "12" + "-" + "9";
  }

  lemma HoursToMinutes(h: int)
    ensures (h * MinutesPerHour) % MinutesPerHour == 0
    ensures (h * MinutesPerHour) / MinutesPerHour == h
    ensures h >= 0 ==> h * MinutesPerHour >= 0
  {
  }

  /** `f"{s//60}-{e//60}"`. For a positive divisor Dafny's `/` is floor
      division, the same as Python's `//`. */
  function RenderSpan(p: Span): (text: string)
    ensures p.start >= 0 && p.end >= 0 ==>
              Split(text, '-') == [NatToDecimal(p.start / MinutesPerHour), NatToDecimal(p.end / MinutesPerHour)]
  {
    var a := IntToDecimal(p.start / MinutesPerHour);
    var b := IntToDecimal(p.end / MinutesPerHour);
    if p.start < 0 || p.end < 0 then a + "-" + b
    else
      assert '-' !in a && '-' !in b;
      SplitTwo(a, b, '-');
      a + "-" + b
  }

  /** Rendering is exact for hour-aligned ranges: reading the text back gives
      the same range. */
  lemma ParseRender(p: Span)
    requires Aligned(p)
    ensures ParseRange(RenderSpan(p)) == Some(p)
  {
    var a := NatToDecimal(p.start / MinutesPerHour);
    var b := NatToDecimal(p.end / MinutesPerHour);
    assert '-' !in a && '-' !in b;
    SplitTwo(a, b, '-');
    assert RenderSpan(p) == a + ['-'] + b;
    PyIntOfDecimal(p.start / MinutesPerHour);
    PyIntOfDecimal(p.end / MinutesPerHour);
    WholeHours(p.start);
    WholeHours(p.end);
  }

  /** The parsing loops of main.py:47-49 and 64-66: every string parsed in
      order, or `None` if any of them raises. */
  function ParseAll(texts: seq<string>): (r: Option<seq<Span>>)
    ensures r.Some? <==> forall i :: 0 <= i < |texts| ==> ParseRange(texts[i]).Some?
    ensures r.Some? ==> |r.value| == |texts|
    ensures r.Some? ==> forall i :: 0 <= i < |texts| ==> ParseRange(texts[i]) == Some(r.value[i])
    decreases |texts|
  {
    if |texts| == 0 then Some([])
    else
      var first :- ParseRange(texts[0]);
      var rest :- ParseAll(texts[1..]);
      Some([first] + rest)
  }

  /** The rendering comprehension of main.py:76. */
  function RenderAll(ps: seq<Span>): (texts: seq<string>)
    ensures |texts| == |ps|
    ensures forall i :: 0 <= i < |ps| ==> texts[i] == RenderSpan(ps[i])
    decreases |ps|
  {
    if |ps| == 0 then [] else [RenderSpan(ps[0])] + RenderAll(ps[1..])
  }

  lemma WholeHours(m: int)
    requires m % MinutesPerHour == 0
    ensures (m / MinutesPerHour) * MinutesPerHour == m
  {
  }

  /** `ParseAll` succeeds with `ps` when each string parses to its range. */
  lemma ParseAllOf(texts: seq<string>, ps: seq<Span>)
    requires |texts| == |ps|
    requires forall i :: 0 <= i < |ps| ==> ParseRange(texts[i]) == Some(ps[i])
    ensures ParseAll(texts) == Some(ps)
  {
    var r := ParseAll(texts);
    assert r.Some?;
    forall i | 0 <= i < |ps|
      ensures r.value[i] == ps[i]
    {
      assert ParseRange(texts[i]) == Some(r.value[i]);
    }
    assert r.value == ps;
  }

  /** Every rendered hour-aligned range reads back as itself. */
  lemma ParseRenderAll(ps: seq<Span>)
    requires AllAligned(ps)
    ensures ParseAll(RenderAll(ps)) == Some(ps)
  {
    var texts := RenderAll(ps);
    forall i | 0 <= i < |ps|
      ensures ParseRange(texts[i]) == Some(ps[i])
    {
      ParseRender(ps[i]);
    }
    ParseAllOf(texts, ps);
  }
}
