/** Busy time to free time: the sort and cursor sweep of
    `calculate_free_slots` (main.py:45-59). */
module BusyComplement {
  import opened Spans
  import opened SpanSort

  /** The loop of main.py:53-59 from a given cursor: a gap is emitted before
      each busy start the cursor has not reached, the cursor moves to
      `max(cursor, end)`, and a final gap runs to the end of the day. */
  function Sweep(busy: seq<Span>, cursor: int): (free: seq<Span>)
    ensures forall i :: 0 <= i < |free| ==> cursor <= free[i].start < free[i].end
    decreases |busy|
  {
    if |busy| == 0 then
      if cursor < DayEnd then [Span(cursor, DayEnd)] else []
    else
      var b := busy[0];
      var gap := if cursor < b.start then [Span(cursor, b.start)] else [];
      gap + Sweep(busy[1..], Max(cursor, b.end))
  }

  /** `calculate_free_slots` up to main.py:59: sort the busy ranges, then sweep
      from the start of the day. */
  function Complement(busy: seq<Span>): (free: seq<Span>)
    ensures forall i :: 0 <= i < |free| ==> 0 <= free[i].start < free[i].end
    ensures busy == [] ==> free == [Span(0, DayEnd)]
  {
    Sweep(Sort(busy), 0)
  }

  // ---------------------------------------------------------------------------
  // Facts about Covers
  // ---------------------------------------------------------------------------

  /** Reordering the ranges changes no minute's coverage. */
  lemma CoversPermutation(a: seq<Span>, b: seq<Span>, m: int)
    requires multiset(a) == multiset(b)
    ensures Covers(a, m) <==> Covers(b, m)
  {
    if Covers(a, m) {
      var i :| 0 <= i < |a| && Contains(a[i], m);
      assert a[i] in multiset(b);
      var j :| 0 <= j < |b| && b[j] == a[i];
    }
    if Covers(b, m) {
      var j :| 0 <= j < |b| && Contains(b[j], m);
      assert b[j] in multiset(a);
      var i :| 0 <= i < |a| && a[i] == b[j];
    }
  }

  lemma AllForwardPermutation(a: seq<Span>, b: seq<Span>)
    requires multiset(a) == multiset(b)
    requires AllForward(a)
    ensures AllForward(b)
  {
    forall j | 0 <= j < |b|
      ensures Forward(b[j])
    {
      assert b[j] in multiset(a);
      var i :| 0 <= i < |a| && a[i] == b[j];
    }
  }

  // ---------------------------------------------------------------------------
  // The sweep
  // ---------------------------------------------------------------------------

  /** With no reversed busy range, each emitted gap ends no later than the
      next one starts. */
  lemma {:induction false} SweepChained(busy: seq<Span>, cursor: int)
    requires AllForward(busy)
    ensures Chained(Sweep(busy, cursor))
    decreases |busy|
  {
    if |busy| > 0 {
      var b := busy[0];
      var next := Max(cursor, b.end);
      var rest := Sweep(busy[1..], next);
      SweepChained(busy[1..], next);
      if cursor < b.start {
        var free := [Span(cursor, b.start)] + rest;
        assert Sweep(busy, cursor) == free;
        forall i, j | 0 <= i < j < |free|
          ensures free[i].end <= free[j].start
        {
          assert free[j] == rest[j - 1];
          if i > 0 {
            assert free[i] == rest[i - 1];
          } else {
            assert Forward(b);
          }
        }
      } else {
        assert Sweep(busy, cursor) == rest;
      }
    }
  }

  /** Coverage of the sweep: from the cursor to the end of the day, a minute is
      in an emitted gap exactly when no busy range holds it. Reversed busy
      ranges hold no minute and need no exception. */
  lemma {:induction false} SweepCoverage(busy: seq<Span>, cursor: int, m: int)
    requires Sorted(busy)
    requires cursor <= m < DayEnd
    ensures Covers(Sweep(busy, cursor), m) <==> !Covers(busy, m)
    decreases |busy|
  {
    if |busy| == 0 {
      var free := Sweep(busy, cursor);
      assert free == [Span(cursor, DayEnd)];
      assert Contains(free[0], m);
    } else {
      var b := busy[0];
      var next := Max(cursor, b.end);
      var gap := if cursor < b.start then [Span(cursor, b.start)] else [];
      var rest := Sweep(busy[1..], next);
      assert Sweep(busy, cursor) == gap + rest;
      CoversAppend(gap, rest, m);
      if m < b.start {
        // In the gap; no busy range starts this early.
        assert Contains(gap[0], m);
        forall j | 0 <= j < |busy|
          ensures !Contains(busy[j], m)
        {
          if j > 0 {
            assert SpanLeq(busy[0], busy[j]);
          }
        }
      } else if m < next {
        // Hidden behind the cursor: inside b, since m is not before the cursor.
        assert !Covers(gap, m);
        assert !Covers(rest, m);
        assert Contains(busy[0], m);
      } else {
        assert !Covers(gap, m);
        CoversCons(busy, m);
        SweepCoverage(busy[1..], next, m);
      }
    }
  }

  /** The gaps come out in order of their starts, whatever the busy ranges. */
  lemma {:induction false} SweepStartsOrdered(busy: seq<Span>, cursor: int)
    ensures forall i, j :: 0 <= i < j < |Sweep(busy, cursor)| ==>
              Sweep(busy, cursor)[i].start <= Sweep(busy, cursor)[j].start
    decreases |busy|
  {
    if |busy| > 0 {
      var b := busy[0];
      var next := Max(cursor, b.end);
      var rest := Sweep(busy[1..], next);
      SweepStartsOrdered(busy[1..], next);
      if cursor < b.start {
        var free := [Span(cursor, b.start)] + rest;
        assert Sweep(busy, cursor) == free;
        forall i, j | 0 <= i < j < |free|
          ensures free[i].start <= free[j].start
        {
          assert free[j] == rest[j - 1];
          if i > 0 {
            assert free[i] == rest[i - 1];
          }
        }
      } else {
        assert Sweep(busy, cursor) == rest;
      }
    }
  }

  lemma {:induction false} SweepWithinDay(busy: seq<Span>, cursor: int)
    requires StartsWithinDay(busy)
    requires 0 <= cursor
    ensures WithinDay(Sweep(busy, cursor))
    decreases |busy|
  {
    if |busy| > 0 {
      SweepWithinDay(busy[1..], Max(cursor, busy[0].end));
    }
  }

  lemma {:induction false} SweepAligned(busy: seq<Span>, cursor: int)
    requires AllAligned(busy)
    requires 0 <= cursor && cursor % MinutesPerHour == 0
    ensures AllAligned(Sweep(busy, cursor))
    decreases |busy|
  {
    if |busy| > 0 {
      assert Aligned(busy[0]);
      SweepAligned(busy[1..], Max(cursor, busy[0].end));
    }
  }

  // ---------------------------------------------------------------------------
  // The complement
  // ---------------------------------------------------------------------------

  /** The free ranges are in order and pairwise disjoint, provided no busy
      range is reversed. */
  lemma ComplementChained(busy: seq<Span>)
    requires AllForward(busy)
    ensures Chained(Complement(busy))
  {
    AllForwardPermutation(busy, Sort(busy));
    SweepChained(Sort(busy), 0);
  }

  /** The free ranges are ordered by start, for every busy list. */
  lemma ComplementStartsOrdered(busy: seq<Span>)
    ensures forall i, j :: 0 <= i < j < |Complement(busy)| ==>
              Complement(busy)[i].start <= Complement(busy)[j].start
  {
    SweepStartsOrdered(Sort(busy), 0);
  }

  /** A minute of the day is free exactly when no busy range holds it. */
  lemma ComplementCoverage(busy: seq<Span>, m: int)
    requires 0 <= m < DayEnd
    ensures Covers(Complement(busy), m) <==> !Covers(busy, m)
  {
    var sorted := Sort(busy);
    CoversPermutation(busy, sorted, m);
    SweepCoverage(sorted, 0, m);
  }

  /** The order in which busy ranges were declared does not matter. */
  lemma ComplementOrderIrrelevant(a: seq<Span>, b: seq<Span>)
    requires multiset(a) == multiset(b)
    ensures Complement(a) == Complement(b)
  {
    SortedUnique(Sort(a), Sort(b));
  }

  /** Adding a busy range never frees a minute. */
  lemma ComplementMonotone(busy: seq<Span>, extra: Span, m: int)
    requires 0 <= m < DayEnd
    ensures Covers(Complement(busy + [extra]), m) ==> Covers(Complement(busy), m)
  {
    ComplementCoverage(busy + [extra], m);
    ComplementCoverage(busy, m);
    CoversAppend(busy, [extra], m);
  }

  /** When no busy range starts after midnight, every free range lies inside
      the day. */
  lemma ComplementWithinDay(busy: seq<Span>)
    requires StartsWithinDay(busy)
    ensures WithinDay(Complement(busy))
  {
    var sorted := Sort(busy);
    forall j | 0 <= j < |sorted|
      ensures sorted[j].start <= DayEnd
    {
      assert sorted[j] in multiset(busy);
    }
    SweepWithinDay(sorted, 0);
  }

  /** Whole-hour busy ranges give whole-hour free ranges. */
  lemma ComplementAligned(busy: seq<Span>)
    requires AllAligned(busy)
    ensures AllAligned(Complement(busy))
  {
    var sorted := Sort(busy);
    forall j | 0 <= j < |sorted|
      ensures Aligned(sorted[j])
    {
      assert sorted[j] in multiset(busy);
    }
    SweepAligned(sorted, 0);
  }

  /** The source does not reject a reversed range such as `"12-9"`; the sweep
      then emits overlapping free ranges, so `ComplementChained` needs
      `AllForward`. */
  lemma ReversedBusyOverlaps()
    ensures Complement([Span(720, 540)]) == [Span(0, 720), Span(540, DayEnd)]
    ensures !Chained(Complement([Span(720, 540)]))
  {
    var busy := [Span(720, 540)];
    assert Sort(busy) == Insert(busy[0], Sort(busy[1..]));
    assert busy[1..] == [];
    assert Sort(busy) == busy;
    assert Sweep(busy[1..], 540) == [Span(540, DayEnd)];
    assert Sweep(busy, 0) == [Span(0, 720)] + Sweep(busy[1..], 540);
    var free := Complement(busy);
    assert free[0].end > free[1].start;
  }
}
