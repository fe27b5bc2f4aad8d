/** The few pieces of Python string behaviour the free-time engine relies on:
    `str.split` on one separator, `int()` on a base-10 string, `str()` of an
    integer, `str.capitalize` and the `<` order on strings. */
module Text {
  import opened Options

  // ---------------------------------------------------------------------------
  // str.split(sep) for a one-character separator, and its inverse sep.join
  // ---------------------------------------------------------------------------

  /** Number of occurrences of `c` in `s`. */
  function Occurrences(s: string, c: char): nat
  {
    if |s| == 0 then 0
    else (if s[0] == c then 1 else 0) + Occurrences(s[1..], c)
  }

  /** `s.split(sep)`: always at least one piece, one more piece than there are
      separators, and no piece contains the separator. */
  function Split(s: string, sep: char): (parts: seq<string>)
    ensures |parts| == Occurrences(s, sep) + 1
    ensures forall i :: 0 <= i < |parts| ==> sep !in parts[i]
    decreases |s|
  {
    if |s| == 0 then [""]
    else
      var rest := Split(s[1..], sep);
      if s[0] == sep then [""] + rest
      else [[s[0]] + rest[0]] + rest[1..]
  }

  /** `sep.join(parts)`. */
  function Join(parts: seq<string>, sep: char): string
    requires |parts| >= 1
    decreases |parts|
  {
    if |parts| == 1 then parts[0]
    else parts[0] + [sep] + Join(parts[1..], sep)
  }

  /** Joining the pieces of a split gives back the original string. */
  lemma {:induction false} JoinSplit(s: string, sep: char)
    ensures Join(Split(s, sep), sep) == s
    decreases |s|
  {
    if |s| == 0 {
    } else {
      var rest := Split(s[1..], sep);
      JoinSplit(s[1..], sep);
      if s[0] == sep {
        assert Split(s, sep) == [""] + rest;
        assert ([""] + rest)[1..] == rest;
        assert s == [sep] + s[1..];
      } else {
        var parts := Split(s, sep);
        assert parts == [[s[0]] + rest[0]] + rest[1..];
        if |rest| == 1 {
          assert s == [s[0]] + s[1..];
        } else {
          assert parts[1..] == rest[1..];
          assert Join(rest, sep) == rest[0] + [sep] + Join(rest[1..], sep);
          assert s == [s[0]] + s[1..];
        }
      }
    }
  }

  /** A string without the separator is a single piece. */
  lemma {:induction false} SplitNoSeparator(s: string, sep: char)
    requires sep !in s
    ensures Split(s, sep) == [s]
    decreases |s|
  {
    if |s| > 0 {
      SplitNoSeparator(s[1..], sep);
      assert s == [s[0]] + s[1..];
    }
  }

  /** A separator-free prefix is glued onto the first piece of what follows. */
  lemma {:induction false} SplitPrefix(a: string, t: string, sep: char)
    requires sep !in a
    ensures Split(a + t, sep) == [a + Split(t, sep)[0]] + Split(t, sep)[1..]
    decreases |a|
  {
    if |a| > 0 {
      SplitPrefix(a[1..], t, sep);
      assert (a + t)[1..] == a[1..] + t;
      assert (a + t)[0] == a[0];
      assert [a[0]] + (a[1..] + Split(t, sep)[0]) == a + Split(t, sep)[0];
    } else {
      var parts := Split(t, sep);
      assert a + t == t;
      assert a + parts[0] == parts[0];
      assert parts == [parts[0]] + parts[1..];
    }
  }

  /** Splitting `a + sep + b` on `sep` recovers exactly `a` and `b`. */
  lemma SplitTwo(a: string, b: string, sep: char)
    requires sep !in a && sep !in b
    ensures Split(a + [sep] + b, sep) == [a, b]
  {
    var t := [sep] + b;
    SplitNoSeparator(b, sep);
    assert t[0] == sep && t[1..] == b;
    var pt := Split(t, sep);
    assert pt == [""] + [b];
    assert pt[0] == "" && pt[1..] == [b];
    SplitPrefix(a, t, sep);
    assert a + "" == a;
    assert a + [sep] + b == a + t;
  }

  // ---------------------------------------------------------------------------
  // Decimal digits: str(n) and int(s)
  // ---------------------------------------------------------------------------

  predicate IsDigit(c: char) {
    '0' <= c <= '9'
  }

  predicate AllDigits(s: string) {
    forall i :: 0 <= i < |s| ==> IsDigit(s[i])
  }

  function DigitValue(c: char): nat
    requires IsDigit(c)
  {
    (c as int) - ('0' as int)
  }

  function DigitChar(d: nat): (c: char)
    requires d < 10
    ensures IsDigit(c) && DigitValue(c) == d
  {
    (('0' as int) + d) as char
  }

  /** The value of a string of decimal digits, most significant first. */
  function DecimalValue(s: string): nat
    requires AllDigits(s)
    decreases |s|
  {
    if |s| == 0 then 0
    else DecimalValue(s[..|s| - 1]) * 10 + DigitValue(s[|s| - 1])
  }

  /** `str(n)` for a natural number: the shortest decimal spelling, with no
      leading zero, whose value is `n`. */
  function NatToDecimal(n: nat): (s: string)
    ensures |s| >= 1 && AllDigits(s)
    ensures DecimalValue(s) == n
    ensures |s| > 1 ==> s[0] != '0'
    ensures s[0] == '0' <==> n == 0
    decreases n
  {
    if n < 10 then [DigitChar(n)]
    else
      var prefix := NatToDecimal(n / 10);
      var s := prefix + [DigitChar(n % 10)];
      assert s[..|s| - 1] == prefix;
      s
  }

  /** `str(i)` for any integer. */
  function IntToDecimal(i: int): (s: string)
    ensures |s| >= 1
    ensures s[0] == '-' <==> i < 0
    ensures i >= 0 ==> AllDigits(s) && DecimalValue(s) == i
    ensures i < 0 ==> AllDigits(s[1..]) && DecimalValue(s[1..]) == -i
    ensures i >= 0 && |s| > 1 ==> s[0] != '0'
    ensures i < 0 ==> |s| > 1 && s[1] != '0'
  {
    if i < 0 then "-" + NatToDecimal(-i) else NatToDecimal(i)
  }

  /** `str(n)` of a two-digit number. */
  lemma TwoDigits(n: nat)
    requires 10 <= n < 100
    ensures NatToDecimal(n) == [DigitChar(n / 10), DigitChar(n % 10)]
  {
  }

  /** The characters `int()` strips from both ends of an ASCII argument:
      tab, line feed, vertical tab, form feed, carriage return and space.
      `str.isspace` also counts U+001C..U+001F, but `int()` rejects them. */
  predicate IsSpace(c: char) {
    ('\t' <= c <= '\r') || c == ' '
  }

  function StripLeft(s: string): (t: string)
    decreases |s|
  {
    if |s| > 0 && IsSpace(s[0]) then StripLeft(s[1..]) else s
  }

  function StripRight(s: string): (t: string)
    decreases |s|
  {
    if |s| > 0 && IsSpace(s[|s| - 1]) then StripRight(s[..|s| - 1]) else s
  }

  /** `s.strip()` restricted to the characters of `IsSpace`. */
  function Strip(s: string): (t: string)
    ensures |t| <= |s|
    ensures |t| > 0 ==> !IsSpace(t[0]) && !IsSpace(t[|t| - 1])
  {
    StripLeftEnds(s);
    StripRightEnds(StripLeft(s));
    StripRight(StripLeft(s))
  }

  /** What `StripLeft` leaves is a suffix that starts with no whitespace. */
  lemma {:induction false} StripLeftEnds(s: string)
    ensures |StripLeft(s)| <= |s|
    ensures |StripLeft(s)| > 0 ==> !IsSpace(StripLeft(s)[0])
    decreases |s|
  {
    if |s| > 0 && IsSpace(s[0]) {
      StripLeftEnds(s[1..]);
    }
  }

  /** What `StripRight` leaves is a prefix that ends with no whitespace, so it
      keeps the first character of a non-empty result. */
  lemma {:induction false} StripRightEnds(s: string)
    ensures |StripRight(s)| <= |s|
    ensures |StripRight(s)| > 0 ==> !IsSpace(StripRight(s)[|StripRight(s)| - 1])
    ensures |StripRight(s)| > 0 ==> StripRight(s)[0] == s[0]
    decreases |s|
  {
    if |s| > 0 && IsSpace(s[|s| - 1]) {
      StripRightEnds(s[..|s| - 1]);
    }
  }

  /** The digit part `int()` accepts: digits, with single underscores allowed
      only between two digits. */
  predicate DigitGroups(s: string) {
    |s| > 0 && forall i :: 0 <= i < |s| ==> GroupChar(s, i)
  }

  /** Position `i` of `s` holds a digit, or an underscore between two digits. */
  predicate GroupChar(s: string, i: nat)
    requires i < |s|
  {
    IsDigit(s[i]) || (s[i] == '_' && 0 < i < |s| - 1 && IsDigit(s[i - 1]) && IsDigit(s[i + 1]))
  }

  /** `s` with every underscore dropped and every other character kept. */
  function RemoveUnderscores(s: string): (t: string)
    ensures |t| <= |s|
    ensures (forall i :: 0 <= i < |s| ==> IsDigit(s[i]) || s[i] == '_') ==> AllDigits(t)
    ensures AllDigits(s) ==> t == s
    decreases |s|
  {
    if |s| == 0 then ""
    else
      (if s[0] == '_' then "" else [s[0]]) + RemoveUnderscores(s[1..])
  }

  /** Dropping underscores keeps every other character and only those. */
  lemma {:induction false} RemoveUnderscoresKeeps(s: string)
    ensures forall c :: c in RemoveUnderscores(s) <==> c in s && c != '_'
    decreases |s|
  {
    if |s| > 0 {
      RemoveUnderscoresKeeps(s[1..]);
      assert forall c :: c in s <==> c == s[0] || c in s[1..];
    }
  }

  /** Dropping underscores works piece by piece, so the kept characters stay
      in order. */
  lemma {:induction false} RemoveUnderscoresAppend(a: string, b: string)
    ensures RemoveUnderscores(a + b) == RemoveUnderscores(a) + RemoveUnderscores(b)
    decreases |a|
  {
    if |a| == 0 {
      assert a + b == b;
    } else {
      var ab := a + b;
      assert ab[0] == a[0];
      assert ab[1..] == a[1..] + b;
      RemoveUnderscoresAppend(a[1..], b);
      var head := if a[0] == '_' then "" else [a[0]];
      assert RemoveUnderscores(ab) == head + RemoveUnderscores(a[1..] + b);
      assert RemoveUnderscores(a) == head + RemoveUnderscores(a[1..]);
    }
  }

  /** The value of an accepted digit part. */
  function GroupsValue(s: string): nat
    requires DigitGroups(s)
  {
    forall i | 0 <= i < |s|
      ensures IsDigit(s[i]) || s[i] == '_'
    {
      assert GroupChar(s, i);
    }
    DecimalValue(RemoveUnderscores(s))
  }

  /** Python's `int(s)` for a string in base 10; `None` where `int()` raises
      `ValueError`. */
  function PyInt(s: string): (r: Option<int>)
    ensures r.Some? && '-' !in s ==> r.value >= 0
  {
    StripAddsNothing(s, '-');
    SignedValue(Strip(s))
  }

  /** Stripping only removes characters. */
  lemma StripAddsNothing(s: string, c: char)
    ensures c !in s ==> c !in Strip(s)
  {
    if c !in s {
      StripLeftAddsNothing(s, c);
      StripRightAddsNothing(StripLeft(s), c);
    }
  }

  lemma {:induction false} StripLeftAddsNothing(s: string, c: char)
    requires c !in s
    ensures c !in StripLeft(s)
    decreases |s|
  {
    if |s| > 0 && IsSpace(s[0]) {
      StripLeftAddsNothing(s[1..], c);
    }
  }

  lemma {:induction false} StripRightAddsNothing(s: string, c: char)
    requires c !in s
    ensures c !in StripRight(s)
    decreases |s|
  {
    if |s| > 0 && IsSpace(s[|s| - 1]) {
      StripRightAddsNothing(s[..|s| - 1], c);
    }
  }

  /** The stripped text: an optional sign, then digit groups. */
  function SignedValue(t: string): (r: Option<int>)
    ensures r.Some? && '-' !in t ==> r.value >= 0
  {
    if |t| > 0 && (t[0] == '+' || t[0] == '-') then
      if DigitGroups(t[1..]) then
        var magnitude: int := GroupsValue(t[1..]);
        Some(if t[0] == '-' then -magnitude else magnitude)
      else None
    else if DigitGroups(t) then Some(GroupsValue(t))
    else None
  }

  /** A plain run of decimal digits is read as its decimal value. */
  lemma PyIntOfDigits(s: string)
    requires |s| > 0 && AllDigits(s)
    ensures PyInt(s) == Some(DecimalValue(s))
  {
    assert IsDigit(s[0]) && IsDigit(s[|s| - 1]);
    assert StripLeft(s) == s;
    assert StripRight(s) == s;
    assert forall i :: 0 <= i < |s| ==> GroupChar(s, i);
    assert SignedValue(s) == Some(GroupsValue(s));
  }

  /** `int(str(n)) == n` for every natural number. */
  lemma PyIntOfDecimal(n: nat)
    ensures PyInt(IntToDecimal(n)) == Some(n)
  {
    PyIntOfDigits(NatToDecimal(n));
  }

  /** `int("1_000") == 1000`: an underscore between two digit runs is
      skipped. */
  lemma PyIntGrouped(a: string, b: string)
    requires |a| > 0 && AllDigits(a) && |b| > 0 && AllDigits(b)
    ensures AllDigits(a + b)
    ensures PyInt(a + "_" + b) == Some(DecimalValue(a + b))
  {
    var s := a + "_" + b;
    assert IsDigit(s[0]) && IsDigit(s[|s| - 1]);
    DigitEndsUnstripped(s);
    GroupedDigitGroups(a, b);
    GroupedRemove(a, b);
    assert SignedValue(s) == Some(GroupsValue(s));
  }

  /** Text that starts and ends with a digit has nothing to strip. */
  lemma DigitEndsUnstripped(s: string)
    requires |s| > 0 && IsDigit(s[0]) && IsDigit(s[|s| - 1])
    ensures Strip(s) == s
  {
    assert StripLeft(s) == s;
    assert StripRight(s) == s;
  }

  lemma GroupedDigitGroups(a: string, b: string)
    requires |a| > 0 && AllDigits(a) && |b| > 0 && AllDigits(b)
    ensures DigitGroups(a + "_" + b)
  {
    var s := a + "_" + b;
    forall i | 0 <= i < |s|
      ensures GroupChar(s, i)
    {
      if i < |a| {
        assert s[i] == a[i];
      } else if i == |a| {
        assert s[i - 1] == a[|a| - 1] && s[i + 1] == b[0];
      } else {
        assert s[i] == b[i - |a| - 1];
      }
    }
  }

  lemma GroupedRemove(a: string, b: string)
    requires AllDigits(a) && AllDigits(b)
    ensures AllDigits(a + b)
    ensures RemoveUnderscores(a + "_" + b) == a + b
  {
    var u := "_";
    var ub := u + b;
    assert a + u + b == a + ub;
    RemoveUnderscoresAppend(a, ub);
    RemoveUnderscoresAppend(u, b);
    UnderscoreRemoved();
    var ra := RemoveUnderscores(a);
    var rb := RemoveUnderscores(b);
    assert ra == a;
    assert rb == b;
    assert RemoveUnderscores(ub) == rb;
  }

  lemma UnderscoreRemoved()
    ensures RemoveUnderscores("_") == ""
  {
    assert "_"[1..] == "";
  }

  /** A character `int()` can accept somewhere in its argument. */
  predicate IntChar(c: char) {
    IsSpace(c) || c == '+' || c == '-' || IsDigit(c) || c == '_'
  }

  /** `StripLeft` removes a run of leading whitespace. */
  lemma {:induction false} StripLeftSuffix(s: string) returns (k: nat)
    ensures k <= |s| && StripLeft(s) == s[k..]
    ensures forall i :: 0 <= i < k ==> IsSpace(s[i])
    decreases |s|
  {
    if |s| > 0 && IsSpace(s[0]) {
      var j := StripLeftSuffix(s[1..]);
      k := j + 1;
      assert s[1..][j..] == s[k..];
      forall i | 0 < i < k
        ensures IsSpace(s[i])
      {
        assert s[i] == s[1..][i - 1];
      }
    } else {
      k := 0;
    }
  }

  /** `StripRight` removes a run of trailing whitespace. */
  lemma {:induction false} StripRightPrefix(s: string) returns (k: nat)
    ensures k <= |s| && StripRight(s) == s[..k]
    ensures forall i :: k <= i < |s| ==> IsSpace(s[i])
    decreases |s|
  {
    if |s| > 0 && IsSpace(s[|s| - 1]) {
      var p := s[..|s| - 1];
      k := StripRightPrefix(p);
      assert p[..k] == s[..k];
      forall i | k <= i < |s|
        ensures IsSpace(s[i])
      {
        if i < |s| - 1 {
          assert s[i] == p[i];
        }
      }
    } else {
      k := |s|;
      assert s[..k] == s;
    }
  }

  /** A stripped text `int()` accepts holds a digit, and only signs, digits
      and underscores. */
  lemma SignedValueShape(t: string)
    requires SignedValue(t).Some?
    ensures exists i :: 0 <= i < |t| && IsDigit(t[i])
    ensures forall i :: 0 <= i < |t| ==> IntChar(t[i])
  {
    var off := if |t| > 0 && (t[0] == '+' || t[0] == '-') then 1 else 0;
    var body := t[off..];
    assert DigitGroups(body);
    assert GroupChar(body, 0);
    assert t[off] == body[0];
    forall i | 0 <= i < |t|
      ensures IntChar(t[i])
    {
      if i >= off {
        assert GroupChar(body, i - off);
        assert t[i] == body[i - off];
      }
    }
  }

  /** When `int(s)` succeeds, `s` held a digit and nothing but whitespace,
      signs, digits and underscores. */
  lemma PyIntShape(s: string)
    requires PyInt(s).Some?
    ensures exists i :: 0 <= i < |s| && IsDigit(s[i])
    ensures forall i :: 0 <= i < |s| ==> IntChar(s[i])
  {
    var a := StripLeftSuffix(s);
    var u := StripLeft(s);
    var b := StripRightPrefix(u);
    var t := Strip(s);
    assert t == u[..b];
    SignedValueShape(t);
    var j :| 0 <= j < |t| && IsDigit(t[j]);
    assert s[a + j] == t[j];
    forall i | 0 <= i < |s|
      ensures IntChar(s[i])
    {
      if a <= i < a + b {
        assert s[i] == t[i - a];
      } else if i >= a + b {
        assert s[i] == u[i - a];
      }
    }
  }

  /** `int()` raises on a text without digits or with a character outside
      whitespace, signs, digits and underscores. */
  lemma PyIntRejects(s: string)
    requires (forall i :: 0 <= i < |s| ==> !IsDigit(s[i])) || (exists i :: 0 <= i < |s| && !IntChar(s[i]))
    ensures PyInt(s) == None
  {
    if PyInt(s).Some? {
      PyIntShape(s);
    }
  }

  /** `int("")`, `int("9x")` and `int("9\x1c")` all raise. */
  lemma PyIntRejections()
    ensures PyInt("") == None
    ensures PyInt("9x") == None
    ensures PyInt("9" + ['\U{1C}']) == None
  {
    PyIntRejects("");
    assert !IntChar("9x"[1]);
    PyIntRejects("9x");
    var u := "9" + ['\U{1C}'];
    assert !IntChar(u[1]);
    PyIntRejects(u);
  }

  // ---------------------------------------------------------------------------
  // str.capitalize and string order
  // ---------------------------------------------------------------------------

  function LowerChar(c: char): char {
    if 'A' <= c <= 'Z' then ((c as int) + 32) as char else c
  }

  function UpperChar(c: char): char {
    if 'a' <= c <= 'z' then ((c as int) - 32) as char else c
  }

  /** `s.capitalize()` on ASCII letters: first character upper case, the rest
      lower case, other characters unchanged. */
  function Capitalize(s: string): (t: string)
    ensures |t| == |s|
    ensures |s| > 0 ==> t[0] == UpperChar(s[0])
    ensures forall i :: 0 < i < |s| ==> t[i] == LowerChar(s[i])
  {
    if |s| == 0 then ""
    else [UpperChar(s[0])] + seq(|s| - 1, i requires 0 <= i < |s| - 1 => LowerChar(s[i + 1]))
  }

  /** `a` and `b` differ at most in the case of ASCII letters. */
  predicate SameIgnoringCase(a: string, b: string) {
    |a| == |b| && forall i :: 0 <= i < |a| ==> LowerChar(a[i]) == LowerChar(b[i])
  }

  /** A word spelled like `"Mon"`: one upper-case ASCII letter, then lower-case
      ones. */
  predicate CapitalizedWord(d: string) {
    |d| > 0 && 'A' <= d[0] <= 'Z' && forall i :: 0 < i < |d| ==> 'a' <= d[i] <= 'z'
  }

  /** `t.capitalize() == d` for a capitalized word `d` exactly when `t` spells
      `d` in any mix of upper and lower case. */
  lemma CapitalizeMatches(t: string, d: string)
    requires CapitalizedWord(d)
    ensures Capitalize(t) == d <==> SameIgnoringCase(t, d)
  {
    var c := Capitalize(t);
    if |t| == |d| {
      UpperMatches(t[0], d[0]);
      forall i | 0 < i < |d|
        ensures c[i] == d[i] <==> LowerChar(t[i]) == LowerChar(d[i])
      {
        assert LowerChar(d[i]) == d[i];
      }
      if SameIgnoringCase(t, d) {
        assert c == d;
      }
      if c == d {
        assert forall i :: 0 <= i < |t| ==> LowerChar(t[i]) == LowerChar(d[i]);
      }
    }
  }

  /** For an upper-case letter `u`, `x.upper() == u` exactly when `x` is `u`
      in either case. */
  lemma UpperMatches(x: char, u: char)
    requires 'A' <= u <= 'Z'
    ensures UpperChar(x) == u <==> LowerChar(x) == LowerChar(u)
  {
  }

  /** Python's `a < b` on strings: code-point-wise comparison, where a proper
      prefix comes first. (Dafny's own `<` on sequences means proper prefix.) */
  predicate LexLess(a: string, b: string)
    decreases |a|
  {
    if |a| == 0 then |b| > 0
    else if |b| == 0 then false
    else if a[0] != b[0] then a[0] < b[0]
    else LexLess(a[1..], b[1..])
  }

  /** The textbook definition of lexicographic order: a proper prefix, or a
      first differing position where `a` has the smaller character. */
  ghost predicate LexBefore(a: string, b: string) {
    || (|a| < |b| && a == b[..|a|])
    || exists k :: 0 <= k < |a| && k < |b| && a[..k] == b[..k] && a[k] < b[k]
  }

  /** The recursive comparison agrees with the textbook definition, both ways. */
  lemma LexLessMeaning(a: string, b: string)
    ensures LexLess(a, b) <==> LexBefore(a, b)
  {
    if LexLess(a, b) {
      LexLessIsBefore(a, b);
    }
    if LexBefore(a, b) {
      BeforeIsLexLess(a, b);
    }
  }

  lemma {:induction false} LexLessIsBefore(a: string, b: string)
    requires LexLess(a, b)
    ensures LexBefore(a, b)
    decreases |a|
  {
    if |a| == 0 {
      assert a == b[..0];
    } else if a[0] != b[0] {
      assert a[..0] == b[..0];
    } else {
      LexLessIsBefore(a[1..], b[1..]);
      if |a[1..]| < |b[1..]| && a[1..] == b[1..][..|a[1..]|] {
        assert a == [a[0]] + a[1..];
        assert b[..|a|] == [b[0]] + b[1..][..|a| - 1];
      } else {
        var k :| 0 <= k < |a[1..]| && k < |b[1..]| && a[1..][..k] == b[1..][..k] && a[1..][k] < b[1..][k];
        assert a[..k + 1] == [a[0]] + a[1..][..k];
        assert b[..k + 1] == [b[0]] + b[1..][..k];
        assert a[k + 1] < b[k + 1];
      }
    }
  }

  lemma {:induction false} BeforeIsLexLess(a: string, b: string)
    requires LexBefore(a, b)
    ensures LexLess(a, b)
    decreases |a|
  {
    if |a| == 0 {
    } else if |a| < |b| && a == b[..|a|] {
      assert a[0] == b[0];
      assert a[1..] == b[1..][..|a[1..]|];
      BeforeIsLexLess(a[1..], b[1..]);
    } else {
      var k :| 0 <= k < |a| && k < |b| && a[..k] == b[..k] && a[k] < b[k];
      if k > 0 {
        assert a[0] == a[..k][0] && b[0] == b[..k][0];
        assert a[1..][..k - 1] == a[..k][1..] && b[1..][..k - 1] == b[..k][1..];
        assert a[1..][k - 1] < b[1..][k - 1];
        BeforeIsLexLess(a[1..], b[1..]);
      }
    }
  }

  lemma {:induction false} LexLessIrreflexive(a: string)
    ensures !LexLess(a, a)
    decreases |a|
  {
    if |a| > 0 {
      LexLessIrreflexive(a[1..]);
    }
  }

  lemma {:induction false} LexLessTransitive(a: string, b: string, c: string)
    requires LexLess(a, b) && LexLess(b, c)
    ensures LexLess(a, c)
    decreases |a|
  {
    if |a| > 0 && a[0] == b[0] && b[0] == c[0] {
      LexLessTransitive(a[1..], b[1..], c[1..]);
    }
  }

  /** Any two distinct strings are ordered one way or the other. */
  lemma {:induction false} LexLessTotal(a: string, b: string)
    requires a != b
    ensures LexLess(a, b) || LexLess(b, a)
    decreases |a|
  {
    if |a| > 0 && |b| > 0 && a[0] == b[0] {
      assert a == [a[0]] + a[1..];
      assert b == [b[0]] + b[1..];
      LexLessTotal(a[1..], b[1..]);
    }
  }

  lemma {:induction false} LexLessAsymmetric(a: string, b: string)
    requires LexLess(a, b)
    ensures !LexLess(b, a)
  {
    if LexLess(b, a) {
      LexLessTransitive(a, b, a);
      LexLessIrreflexive(a);
    }
  }
}
