/** `busy_ranges.sort()` (main.py:50): Python orders `(start, end)` tuples
    lexicographically. Any correct sort gives the same list, so the model uses
    insertion sort and proves that the sorted permutation is unique. */
module SpanSort {
  import opened Spans

  /** Tuple order on `(start, end)`. */
  predicate SpanLeq(a: Span, b: Span) {
    a.start < b.start || (a.start == b.start && a.end <= b.end)
  }

  predicate Sorted(ps: seq<Span>) {
    forall i, j :: 0 <= i < j < |ps| ==> SpanLeq(ps[i], ps[j])
  }

  /** Insert `x` into a sorted list, keeping it sorted. */
  function Insert(x: Span, ps: seq<Span>): (r: seq<Span>)
    requires Sorted(ps)
    ensures Sorted(r)
    ensures multiset(r) == multiset(ps) + multiset{x}
    decreases |ps|
  {
    if |ps| == 0 then [x]
    else if SpanLeq(x, ps[0]) then [x] + ps
    else
      var rest := Insert(x, ps[1..]);
      assert ps == [ps[0]] + ps[1..];
      forall k | 0 <= k < |rest|
        ensures SpanLeq(ps[0], rest[k])
      {
        assert rest[k] in multiset(rest);
        if rest[k] != x {
          assert rest[k] in multiset(ps[1..]);
          var j :| 0 <= j < |ps[1..]| && ps[1..][j] == rest[k];
          assert ps[j + 1] == rest[k];
        }
      }
      [ps[0]] + rest
  }

  /** The sorted permutation of `ps`. */
  function Sort(ps: seq<Span>): (r: seq<Span>)
    ensures Sorted(r)
    ensures multiset(r) == multiset(ps)
    decreases |ps|
  {
    if |ps| == 0 then []
    else
      assert ps == [ps[0]] + ps[1..];
      Insert(ps[0], Sort(ps[1..]))
  }

  /** Two sorted lists holding the same elements are the same list; so the
      model's sort agrees with Python's. */
  lemma {:induction false} SortedUnique(a: seq<Span>, b: seq<Span>)
    requires Sorted(a) && Sorted(b)
    requires multiset(a) == multiset(b)
    ensures a == b
    decreases |a|
  {
    if |a| == 0 {
      assert |b| == |multiset(b)| == 0;
    } else {
      assert |b| == |multiset(b)| == |multiset(a)| == |a|;
      assert a[0] in multiset(b);
      assert b[0] in multiset(a);
      var i :| 0 <= i < |b| && b[i] == a[0];
      var j :| 0 <= j < |a| && a[j] == b[0];
      assert SpanLeq(b[0], a[0]) by {
        if i > 0 { assert SpanLeq(b[0], b[i]); }
      }
      assert SpanLeq(a[0], b[0]) by {
        if j > 0 { assert SpanLeq(a[0], a[j]); }
      }
      assert a[0] == b[0];
      assert a == [a[0]] + a[1..];
      assert b == [b[0]] + b[1..];
      assert multiset(a[1..]) == multiset(a) - multiset{a[0]};
      assert multiset(b[1..]) == multiset(b) - multiset{b[0]};
      SortedUnique(a[1..], b[1..]);
    }
  }
}
