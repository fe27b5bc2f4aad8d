/** `sorted(...)` on a set of strings (main.py:93): the members in Python's
    string order, each once. */
module SortedStrings {
  import opened Text

  /** Strictly increasing in Python's string order; hence no duplicates. */
  predicate StrictlySorted(xs: seq<string>) {
    forall i, j :: 0 <= i < j < |xs| ==> LexLess(xs[i], xs[j])
  }

  lemma LexLessAsymmetricAll()
    ensures forall a, b :: LexLess(a, b) ==> !LexLess(b, a)
  {
    forall a, b | LexLess(a, b)
      ensures !LexLess(b, a)
    {
      LexLessAsymmetric(a, b);
    }
  }

  /** `m` is the least member of `s` in Python's string order. */
  predicate IsLeast(m: string, s: set<string>) {
    m in s && forall x :: x in s && x != m ==> LexLess(m, x)
  }

  /** Adding `y` to a set whose least member is `m` leaves `m` or `y` least. */
  lemma LeastOfInsert(rest: set<string>, y: string, m: string) returns (n: string)
    requires IsLeast(m, rest)
    ensures IsLeast(n, rest + {y})
  {
    var s := rest + {y};
    if y in rest {
      assert s == rest;
      n := m;
      return;
    }
    LexLessTotal(m, y);
    if LexLess(m, y) {
      n := m;
    } else {
      n := y;
      forall x | x in s && x != y
        ensures LexLess(y, x)
      {
        if x != m {
          LexLessTransitive(y, m, x);
        }
      }
    }
  }

  /** Every non-empty finite set of strings has a least member. */
  lemma {:induction false} LeastExists(s: set<string>)
    requires s != {}
    ensures exists m :: IsLeast(m, s)
    decreases |s|
  {
    var y :| y in s;
    if s == {y} {
      assert IsLeast(y, s);
    } else {
      var rest := s - {y};
      assert |rest| < |s|;
      LeastExists(rest);
      var m :| IsLeast(m, rest);
      var n := LeastOfInsert(rest, y, m);
      assert rest + {y} == s;
      assert IsLeast(n, s);
    }
  }

  /** The least member of a non-empty set. */
  function Least(s: set<string>): (m: string)
    requires s != {}
    ensures m in s
    ensures forall x :: x in s && x != m ==> LexLess(m, x)
  {
    LeastExists(s);
    LexLessAsymmetricAll();
    var m :| m in s && forall x :: x in s && x != m ==> LexLess(m, x);
    m
  }

  /** The members of `s` in increasing order. */
  function SortedElements(s: set<string>): (xs: seq<string>)
    ensures StrictlySorted(xs)
    ensures forall x :: x in xs <==> x in s
    decreases |s|
  {
    if s == {} then []
    else
      var m := Least(s);
      var rest := SortedElements(s - {m});
      assert forall k :: 0 <= k < |rest| ==> rest[k] in s - {m};
      [m] + rest
  }

  /** A strictly sorted list is determined by its members. */
  lemma {:induction false} StrictlySortedUnique(a: seq<string>, b: seq<string>)
    requires StrictlySorted(a) && StrictlySorted(b)
    requires forall x :: x in a <==> x in b
    ensures a == b
    decreases |a|
  {
    assert |a| > 0 ==> a[0] in b;
    assert |b| > 0 ==> b[0] in a;
    if |a| > 0 {
      var i :| 0 <= i < |b| && b[i] == a[0];
      var j :| 0 <= j < |a| && a[j] == b[0];
      if a[0] != b[0] {
        assert i > 0 && j > 0;
        assert LexLess(b[0], b[i]);
        assert LexLess(a[0], a[j]);
        LexLessAsymmetric(a[0], b[0]);
        assert false;
      }
      forall x
        ensures x in a[1..] <==> x in b[1..]
      {
        if x in a[1..] {
          var k :| 1 <= k < |a| && a[k] == x;
          assert LexLess(a[0], x);
          LexLessIrreflexive(x);
          assert x in b;
        }
        if x in b[1..] {
          var k :| 1 <= k < |b| && b[k] == x;
          assert LexLess(b[0], x);
          LexLessIrreflexive(x);
          assert x in a;
        }
      }
      StrictlySortedUnique(a[1..], b[1..]);
      assert a == [a[0]] + a[1..];
      assert b == [b[0]] + b[1..];
    }
  }
}
