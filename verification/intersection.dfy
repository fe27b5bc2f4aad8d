/** The playtime intersection of `calculate_free_slots` (main.py:67-74):
    every free range against every play range, free ranges in the outer loop,
    keeping only overlaps of positive width. */
module Intersection {
  import opened Spans

  /** `(max(fs, ps), min(fe, pe))` of main.py:70-71. */
  function Overlap(f: Span, p: Span): (o: Span)
    ensures forall m :: Contains(o, m) <==> Contains(f, m) && Contains(p, m)
  {
    Span(Max(f.start, p.start), Min(f.end, p.end))
  }

  /** The inner loop (main.py:69-73) for one free range `f`. */
  function OverlapRow(f: Span, play: seq<Span>): (r: seq<Span>)
    ensures AllNonEmpty(r)
    decreases |play|
  {
    if |play| == 0 then []
    else
      var o := Overlap(f, play[0]);
      (if o.start < o.end then [o] else []) + OverlapRow(f, play[1..])
  }

  /** The outer loop (main.py:68-74). */
  function Intersect(free: seq<Span>, play: seq<Span>): (r: seq<Span>)
    ensures AllNonEmpty(r)
    decreases |free|
  {
    if |free| == 0 then []
    else OverlapRow(free[0], play) + Intersect(free[1..], play)
  }

  // ---------------------------------------------------------------------------
  // Coverage
  // ---------------------------------------------------------------------------

  lemma {:induction false} OverlapRowCoverage(f: Span, play: seq<Span>, m: int)
    ensures Covers(OverlapRow(f, play), m) <==> Contains(f, m) && Covers(play, m)
    decreases |play|
  {
    if |play| > 0 {
      var o := Overlap(f, play[0]);
      var head := if o.start < o.end then [o] else [];
      OverlapRowCoverage(f, play[1..], m);
      CoversAppend(head, OverlapRow(f, play[1..]), m);
      CoversCons(play, m);
      if o.start < o.end {
        assert head[0] == o;
        CoversCons(head, m);
        assert head[1..] == [];
      }
      assert Covers(head, m) <==> Contains(o, m);
    }
  }

  /** A minute is in the intersection exactly when it is in some free range
      and in some play range. */
  lemma {:induction false} IntersectCoverage(free: seq<Span>, play: seq<Span>, m: int)
    ensures Covers(Intersect(free, play), m) <==> Covers(free, m) && Covers(play, m)
    decreases |free|
  {
    if |free| > 0 {
      OverlapRowCoverage(free[0], play, m);
      IntersectCoverage(free[1..], play, m);
      CoversAppend(OverlapRow(free[0], play), Intersect(free[1..], play), m);
      CoversCons(free, m);
    }
  }

  /** Swapping the two lists changes the order of the result but not the
      minutes it covers. */
  lemma IntersectCommutesOnMinutes(a: seq<Span>, b: seq<Span>, m: int)
    ensures Covers(Intersect(a, b), m) <==> Covers(Intersect(b, a), m)
  {
    IntersectCoverage(a, b, m);
    IntersectCoverage(b, a, m);
  }

  // ---------------------------------------------------------------------------
  // Loop order
  // ---------------------------------------------------------------------------

  /** The ranges of positive width, in order. */
  function PositiveOnly(ps: seq<Span>): (r: seq<Span>)
    ensures AllNonEmpty(r)
    decreases |ps|
  {
    if |ps| == 0 then []
    else (if ps[0].start < ps[0].end then [ps[0]] else []) + PositiveOnly(ps[1..])
  }

  lemma {:induction false} PositiveOnlyAppend(a: seq<Span>, b: seq<Span>)
    ensures PositiveOnly(a + b) == PositiveOnly(a) + PositiveOnly(b)
    decreases |a|
  {
    if |a| > 0 {
      assert (a + b)[0] == a[0];
      assert (a + b)[1..] == a[1..] + b;
      PositiveOnlyAppend(a[1..], b);
    } else {
      assert a + b == b;
    }
  }

  lemma DivBound(k: int, n: int, rows: int)
    requires n > 0 && 0 <= k < rows * n
    ensures 0 <= k / n < rows
  {
  }

  lemma MulAtLeast(d: int, n: int)
    requires d >= 1 && n > 0
    ensures d * n >= n
  {
  }

  lemma DivModUnique(k: int, n: int, q: int, r: int)
    requires n > 0 && 0 <= r < n && k == q * n + r
    ensures k / n == q && k % n == r
  {
    var q', r' := k / n, k % n;
    assert k == q' * n + r';
    assert (q - q') * n == r' - r;
    if q > q' {
      MulAtLeast(q - q', n);
    } else if q < q' {
      MulAtLeast(q' - q, n);
    }
  }

  lemma DivShift(k: int, n: int)
    requires n > 0 && k >= n
    ensures k / n == 1 + (k - n) / n
    ensures k % n == (k - n) % n
  {
    var q, r := (k - n) / n, (k - n) % n;
    assert k - n == q * n + r;
    assert k == (q + 1) * n + r;
    DivModUnique(k, n, q + 1, r);
  }

  /** The `k`-th pair the nested loops visit: free range `k / |play|` against
      play range `k % |play|`. */
  function PairAt(free: seq<Span>, play: seq<Span>, k: int): Span
    requires |play| > 0 && 0 <= k < |free| * |play|
  {
    DivBound(k, |play|, |free|);
    Overlap(free[k / |play|], play[k % |play|])
  }

  /** Every candidate overlap, in row-major order over (free, play). */
  function Candidates(free: seq<Span>, play: seq<Span>): (cs: seq<Span>)
  {
    if |play| == 0 then []
    else seq(|free| * |play|, k requires 0 <= k < |free| * |play| => PairAt(free, play, k))
  }

  /** The candidates against one free range. */
  function Row(f: Span, play: seq<Span>): seq<Span>
  {
    seq(|play|, j requires 0 <= j < |play| => Overlap(f, play[j]))
  }

  lemma {:induction false} OverlapRowIsRow(f: Span, play: seq<Span>)
    ensures OverlapRow(f, play) == PositiveOnly(Row(f, play))
    decreases |play|
  {
    if |play| > 0 {
      var row := Row(f, play);
      assert row[0] == Overlap(f, play[0]);
      assert row[1..] == Row(f, play[1..]);
      OverlapRowIsRow(f, play[1..]);
    }
  }

  lemma MulSucc(rows: int, n: int)
    ensures rows * n == n + (rows - 1) * n
  {
  }

  lemma CandidatesSplit(free: seq<Span>, play: seq<Span>)
    requires |free| > 0
    ensures Candidates(free, play) == Row(free[0], play) + Candidates(free[1..], play)
  {
    if |play| > 0 {
      var n := |play|;
      var cs := Candidates(free, play);
      var rest := Candidates(free[1..], play);
      var row := Row(free[0], play);
      MulSucc(|free|, n);
      assert |cs| == |row| + |rest|;
      forall k | 0 <= k < |cs|
        ensures cs[k] == (row + rest)[k]
      {
        assert cs[k] == PairAt(free, play, k);
        if k < n {
          DivModUnique(k, n, 0, k);
          assert (row + rest)[k] == row[k];
        } else {
          DivShift(k, n);
          assert (row + rest)[k] == rest[k - n];
          assert rest[k - n] == PairAt(free[1..], play, k - n);
          DivBound(k - n, n, |free| - 1);
          assert free[1..][(k - n) / n] == free[k / n];
        }
      }
    }
  }

  /** The intersection lists the positive-width overlaps in the nested loops'
      order: free ranges outer, play ranges inner. */
  lemma {:induction false} IntersectOrder(free: seq<Span>, play: seq<Span>)
    ensures Intersect(free, play) == PositiveOnly(Candidates(free, play))
    decreases |free|
  {
    if |free| > 0 {
      CandidatesSplit(free, play);
      OverlapRowIsRow(free[0], play);
      IntersectOrder(free[1..], play);
      PositiveOnlyAppend(Row(free[0], play), Candidates(free[1..], play));
    }
  }

  // ---------------------------------------------------------------------------
  // The whole day, and alignment
  // ---------------------------------------------------------------------------

  /** Intersecting non-empty ranges inside the day with the whole day gives
      them back unchanged. */
  lemma {:induction false} IntersectFullDay(free: seq<Span>)
    requires AllNonEmpty(free) && WithinDay(free)
    ensures Intersect(free, [Span(0, DayEnd)]) == free
    decreases |free|
  {
    if |free| > 0 {
      var day := [Span(0, DayEnd)];
      assert Overlap(free[0], day[0]) == free[0];
      assert OverlapRow(free[0], day) == [free[0]] + OverlapRow(free[0], day[1..]);
      IntersectFullDay(free[1..]);
      assert free == [free[0]] + free[1..];
    }
  }

  lemma {:induction false} OverlapRowAligned(f: Span, play: seq<Span>)
    requires Aligned(f) && AllAligned(play)
    ensures AllAligned(OverlapRow(f, play))
    decreases |play|
  {
    if |play| > 0 {
      assert Aligned(play[0]);
      OverlapRowAligned(f, play[1..]);
    }
  }

  /** Whole-hour inputs give whole-hour overlaps. */
  lemma {:induction false} IntersectAligned(free: seq<Span>, play: seq<Span>)
    requires AllAligned(free) && AllAligned(play)
    ensures AllAligned(Intersect(free, play))
    decreases |free|
  {
    if |free| > 0 {
      assert Aligned(free[0]);
      OverlapRowAligned(free[0], play);
      IntersectAligned(free[1..], play);
    }
  }
}
