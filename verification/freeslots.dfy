/** `calculate_free_slots` (main.py:44-77): parse the busy strings, take the
    complement, intersect with the playtime strings when there are any, and
    render the result as `"H-H"` strings. */
module FreeSlots {
  import opened Options
  import opened Text
  import opened Spans
  import opened BusyComplement
  import opened Intersection
  import opened SpanSort

  /** The range list main.py:52-74 has built just before rendering. `play` is
      empty exactly when the source skips the intersection (main.py:62). */
  function FreeRanges(busy: seq<Span>, play: seq<Span>): (free: seq<Span>)
    ensures AllNonEmpty(free)
  {
    var free := Complement(busy);
    if |play| == 0 then free else Intersect(free, play)
  }

  /** `calculate_free_slots(busy_times, play_times)`; `None` where a string
      fails to parse and Python raises. The playtime strings are parsed only
      when there are some. */
  function CalculateFreeSlots(busyTimes: seq<string>, playTimes: seq<string>): (r: Option<seq<string>>)
    ensures r.Some? <==> ParseAll(busyTimes).Some? && (|playTimes| > 0 ==> ParseAll(playTimes).Some?)
  {
    var busy :- ParseAll(busyTimes);
    if |playTimes| == 0 then Some(RenderAll(FreeRanges(busy, [])))
    else
      var play :- ParseAll(playTimes);
      Some(RenderAll(FreeRanges(busy, play)))
  }

  // ---------------------------------------------------------------------------
  // On ranges
  // ---------------------------------------------------------------------------

  /** A minute of the day is in the result exactly when no busy range holds
      it and, if there are play ranges, one of them does. */
  lemma FreeRangesCoverage(busy: seq<Span>, play: seq<Span>, m: int)
    requires 0 <= m < DayEnd
    ensures Covers(FreeRanges(busy, play), m) <==> !Covers(busy, m) && (|play| == 0 || Covers(play, m))
  {
    ComplementCoverage(busy, m);
    if |play| > 0 {
      IntersectCoverage(Complement(busy), play, m);
    }
  }

  /** No playtime means the whole day is acceptable: the result equals the
      one for a single all-day playtime, as long as no busy range starts after
      midnight. */
  lemma FreeRangesPreferenceDefault(busy: seq<Span>)
    requires StartsWithinDay(busy)
    ensures FreeRanges(busy, []) == FreeRanges(busy, [Span(0, DayEnd)])
  {
    ComplementWithinDay(busy);
    IntersectFullDay(Complement(busy));
  }

  lemma FreeRangesAligned(busy: seq<Span>, play: seq<Span>)
    requires AllAligned(busy) && AllAligned(play)
    ensures AllAligned(FreeRanges(busy, play))
  {
    ComplementAligned(busy);
    IntersectAligned(Complement(busy), play);
  }

  // ---------------------------------------------------------------------------
  // On strings
  // ---------------------------------------------------------------------------

  /** Some string of `texts` parses to a range holding minute `m`. */
  ghost predicate TextCovers(texts: seq<string>, m: int) {
    exists k :: 0 <= k < |texts| && ParseRange(texts[k]).Some? && Contains(ParseRange(texts[k]).value, m)
  }

  /** No string of `texts` parses to a range starting after hour 24. */
  predicate NoneAfterMidnight(texts: seq<string>) {
    forall k :: 0 <= k < |texts| && ParseRange(texts[k]).Some? ==> ParseRange(texts[k]).value.start <= DayEnd
  }

  lemma TextCoversParsed(texts: seq<string>, m: int)
    requires ParseAll(texts).Some?
    ensures TextCovers(texts, m) <==> Covers(ParseAll(texts).value, m)
  {
    var ps := ParseAll(texts).value;
    if TextCovers(texts, m) {
      var k :| 0 <= k < |texts| && ParseRange(texts[k]).Some? && Contains(ParseRange(texts[k]).value, m);
      assert Contains(ps[k], m);
    }
    if Covers(ps, m) {
      var k :| 0 <= k < |ps| && Contains(ps[k], m);
      assert ParseRange(texts[k]) == Some(ps[k]);
    }
  }

  /** The end-to-end promise of `calculate_free_slots`: every returned string
      reads back as a range, and a minute of the day lies in one of them
      exactly when it lies in no busy string's range and, if playtime strings
      were given, in some playtime string's range. */
  lemma CalculateFreeSlotsCoverage(busyTimes: seq<string>, playTimes: seq<string>, m: int)
    requires CalculateFreeSlots(busyTimes, playTimes).Some?
    requires 0 <= m < DayEnd
    ensures forall k :: 0 <= k < |CalculateFreeSlots(busyTimes, playTimes).value| ==>
              ParseRange(CalculateFreeSlots(busyTimes, playTimes).value[k]).Some?
    ensures TextCovers(CalculateFreeSlots(busyTimes, playTimes).value, m) <==>
              !TextCovers(busyTimes, m) && (|playTimes| == 0 || TextCovers(playTimes, m))
  {
    var out := CalculateFreeSlots(busyTimes, playTimes).value;
    var busy := ParseAll(busyTimes).value;
    var play := if |playTimes| == 0 then [] else ParseAll(playTimes).value;
    var free := FreeRanges(busy, play);
    assert out == RenderAll(free);
    FreeRangesAligned(busy, play);
    ParseRenderAll(free);
    TextCoversParsed(out, m);
    TextCoversParsed(busyTimes, m);
    if |playTimes| > 0 {
      TextCoversParsed(playTimes, m);
    }
    FreeRangesCoverage(busy, play, m);
  }

  /** The whole-day playtime written as text. */
  lemma WholeDayText()
    ensures RenderSpan(Span(0, DayEnd)) == "0-24"
    ensures ParseRange("0-24") == Some(Span(0, DayEnd))
  {
    TwoDigits(24);
    RenderHours(0, 24, "0", "24");
    ParseHours(0, 24, "0", "24");
  }

  /** Giving no playtime is the same as giving `"0-24"`, provided no busy
      string starts after hour 24. */
  lemma PreferenceDefault(busyTimes: seq<string>)
    requires NoneAfterMidnight(busyTimes)
    ensures CalculateFreeSlots(busyTimes, []) == CalculateFreeSlots(busyTimes, ["0-24"])
  {
    WholeDayText();
    var day := ["0-24"];
    ParseAllOf(day, [Span(0, DayEnd)]);
    if ParseAll(busyTimes).Some? {
      var busy := ParseAll(busyTimes).value;
      assert StartsWithinDay(busy) by {
        forall i | 0 <= i < |busy|
          ensures busy[i].start <= DayEnd
        {
          assert ParseRange(busyTimes[i]) == Some(busy[i]);
        }
      }
      FreeRangesPreferenceDefault(busy);
    }
  }

  // ---------------------------------------------------------------------------
  // Worked examples
  // ---------------------------------------------------------------------------

  /** An already sorted list is left as it is. */
  lemma SortKeepsSorted(ps: seq<Span>)
    requires Sorted(ps)
    ensures Sort(ps) == ps
  {
    SortedUnique(Sort(ps), ps);
  }

  /** Busy 9:00-17:00 with playtime 18:00-23:00: the free ranges are
      `(0,540)` and `(1020,1440)`, and only the evening one meets the
      playtime. */
  lemma EveningPlaytime()
    ensures FreeRanges([Span(540, 1020)], [Span(1080, 1380)]) == [Span(1080, 1380)]
  {
    WorkdayFree();
    var busy := [Span(540, 1020)];
    var free := [Span(0, 540), Span(1020, DayEnd)];
    var play := [Span(1080, 1380)];
    assert FreeRanges(busy, play) == Intersect(free, play);
    assert play[1..] == [];
    assert OverlapRow(free[0], play) == [];
    assert OverlapRow(free[1], play) == play;
    assert free[1..][1..] == [];
    assert Intersect(free[1..][1..], play) == [];
    assert Intersect(free[1..], play) == play;
  }

  lemma WorkdayFree()
    ensures Complement([Span(540, 1020)]) == [Span(0, 540), Span(1020, DayEnd)]
  {
    var busy := [Span(540, 1020)];
    SortKeepsSorted(busy);
    assert busy[1..] == [];
  }

  /** An empty busy range such as `"9-9"` blocks no minute, yet the sweep
      still splits the day at it. */
  lemma EmptyBusySplitsDay()
    ensures FreeRanges([Span(540, 540)], []) == [Span(0, 540), Span(540, DayEnd)]
  {
    var busy := [Span(540, 540)];
    SortKeepsSorted(busy);
    assert busy[1..] == [];
  }

  /** `calculate_free_slots(["9-9"], [])` returns `["0-9", "9-24"]`: the
      empty busy range still splits the day in two. */
  lemma EmptyBusyText()
    ensures CalculateFreeSlots(["9-9"], []) == Some(["0-9", "9-24"])
  {
    ParseNineToNine();
    EmptyBusySplitsDay();
    RenderMorningAndRest();
  }

  lemma ParseNineToNine()
    ensures ParseAll(["9-9"]) == Some([Span(540, 540)])
  {
    var texts := ["9-9"];
    ParseHours(9, 9, "9", "9");
    assert texts[0] == "9" + "-" + "9";
    ParseAllOf(texts, [Span(540, 540)]);
  }

  lemma RenderMorningAndRest()
    ensures RenderAll([Span(0, 540), Span(540, DayEnd)]) == ["0-9", "9-24"]
  {
    var free := [Span(0, 540), Span(540, DayEnd)];
    TwoDigits(24);
    RenderHours(0, 9, "0", "9");
    RenderHours(9, 24, "9", "24");
    RenderTwo(free[0], free[1]);
    assert RenderSpan(free[0]) == "0-9";
    assert RenderSpan(free[1]) == "9-24";
  }

  /** A two-range list is rendered range by range. */
  lemma RenderTwo(p: Span, q: Span)
    ensures RenderAll([p, q]) == [RenderSpan(p), RenderSpan(q)]
  {
  }

  /** `calculate_free_slots(["12-9"], [])` accepts the backwards range and
      returns `["0-12", "9-24"]`, two ranges that share 9:00-12:00. */
  lemma ReversedBusyText()
    ensures CalculateFreeSlots(["12-9"], []) == Some(["0-12", "9-24"])
  {
    ParseBackwards();
    ParseAllOf(["12-9"], [Span(720, 540)]);
    ReversedBusyOverlaps();
    RenderNoonAndRest();
  }

  lemma RenderNoonAndRest()
    ensures RenderAll([Span(0, 720), Span(540, DayEnd)]) == ["0-12", "9-24"]
  {
    var free := [Span(0, 720), Span(540, DayEnd)];
    TwoDigits(12);
    TwoDigits(24);
    RenderHours(0, 12, "0", "12");
    RenderHours(9, 24, "9", "24");
    RenderTwo(free[0], free[1]);
    assert RenderSpan(free[0]) == "0-12";
    assert RenderSpan(free[1]) == "9-24";
  }

  /** `calculate_free_slots(["9-12", "13-17"], [])` returns the three gaps
      `["0-9", "12-13", "17-24"]`. */
  lemma MorningAndAfternoonBusy()
    ensures CalculateFreeSlots(["9-12", "13-17"], []) == Some(["0-9", "12-13", "17-24"])
  {
    ParseMorningAndAfternoon();
    MorningAndAfternoonFree();
    RenderThreeGaps();
  }

  lemma ParseMorningAndAfternoon()
    ensures ParseAll(["9-12", "13-17"]) == Some([Span(540, 720), Span(780, 1020)])
  {
    var texts := ["9-12", "13-17"];
    ParseMorning();
    ParseAfternoon();
    ParseAllOf(texts, [Span(540, 720), Span(780, 1020)]);
  }

  lemma ParseMorning()
    ensures ParseRange("9-12") == Some(Span(540, 720))
  {
    TwoDigits(12);
    ParseHours(9, 12, "9", "12");
    assert "9-12" == "9" + "-" + "12";
  }

  lemma ParseAfternoon()
    ensures ParseRange("13-17") == Some(Span(780, 1020))
  {
    TwoDigits(13);
    TwoDigits(17);
    ParseHours(13, 17, "13", "17");
    assert "13-17" == "13" + "-" + "17";
  }

  lemma MorningAndAfternoonFree()
    ensures Complement([Span(540, 720), Span(780, 1020)])
            == [Span(0, 540), Span(720, 780), Span(1020, DayEnd)]
  {
    var busy := [Span(540, 720), Span(780, 1020)];
    SortKeepsSorted(busy);
    assert busy[1..][1..] == [];
  }

  lemma RenderThreeGaps()
    ensures RenderAll([Span(0, 540), Span(720, 780), Span(1020, DayEnd)]) == ["0-9", "12-13", "17-24"]
  {
    var free := [Span(0, 540), Span(720, 780), Span(1020, DayEnd)];
    RenderThree(free[0], free[1], free[2]);
    RenderGapTexts();
  }

  lemma RenderThree(p: Span, q: Span, r: Span)
    ensures RenderAll([p, q, r]) == [RenderSpan(p), RenderSpan(q), RenderSpan(r)]
  {
    assert [p, q, r][1..] == [q, r];
    RenderTwo(q, r);
  }

  lemma RenderGapTexts()
    ensures RenderSpan(Span(0, 540)) == "0-9"
    ensures RenderSpan(Span(720, 780)) == "12-13"
    ensures RenderSpan(Span(1020, DayEnd)) == "17-24"
  {
    RenderHours(0, 9, "0", "9");
    TwoDigits(12);
    TwoDigits(13);
    RenderHours(12, 13, "12", "13");
    TwoDigits(17);
    TwoDigits(24);
    RenderHours(17, 24, "17", "24");
  }


  /** A busy range starting after midnight, `"25-26"`, makes the default
      differ from the playtime `"0-24"`: `(0, 1500)` against `(0, 1440)`. */
  lemma LateBusyBreaksDefault()
    ensures FreeRanges([Span(1500, 1560)], []) == [Span(0, 1500)]
    ensures FreeRanges([Span(1500, 1560)], [Span(0, DayEnd)]) == [Span(0, DayEnd)]
  {
    var busy := [Span(1500, 1560)];
    SortKeepsSorted(busy);
    assert busy[1..] == [];
    var free := [Span(0, 1500)];
    assert Complement(busy) == free;
    var play := [Span(0, DayEnd)];
    assert play[1..] == [];
    assert OverlapRow(free[0], play) == play;
    assert free[1..] == [];
  }
  /** The same case as text: `calculate_free_slots(["25-26"], [])` returns
      `["0-25"]`, while with the playtime `["0-24"]` it returns `["0-24"]`. */
  lemma LateBusyText()
    ensures CalculateFreeSlots(["25-26"], []) == Some(["0-25"])
    ensures CalculateFreeSlots(["25-26"], ["0-24"]) == Some(["0-24"])
  {
    ParseLateBusy();
    WholeDayText();
    ParseAllOf(["0-24"], [Span(0, DayEnd)]);
    LateBusyBreaksDefault();
    RenderMorningToLate();
    assert RenderAll([Span(0, DayEnd)]) == ["0-24"];
  }

  lemma ParseLateBusy()
    ensures ParseAll(["25-26"]) == Some([Span(1500, 1560)])
  {
    var texts := ["25-26"];
    TwoDigits(25);
    TwoDigits(26);
    ParseHours(25, 26, "25", "26");
    assert texts[0] == "25" + "-" + "26";
    ParseAllOf(texts, [Span(1500, 1560)]);
  }

  lemma RenderMorningToLate()
    ensures RenderAll([Span(0, 1500)]) == ["0-25"]
  {
    var free := [Span(0, 1500)];
    TwoDigits(25);
    RenderHours(0, 25, "0", "25");
    assert RenderSpan(free[0]) == "0-25";
    assert free[1..] == [];
  }

  /** Busy ranges past midnight also open gaps after hour 24: busy
      `(0, 1500)` leaves nothing free, yet adding `(1560, 1620)` frees
      `(1500, 1560)`, a range outside the day. */
  lemma LateBusyFreesMinute()
    ensures Complement([Span(0, 1500)]) == []
    ensures Complement([Span(0, 1500), Span(1560, 1620)]) == [Span(1500, 1560)]
  {
    var one := [Span(0, 1500)];
    SortKeepsSorted(one);
    assert one[1..] == [];
    var two := [Span(0, 1500), Span(1560, 1620)];
    SortKeepsSorted(two);
    assert two[1..][1..] == [];
  }

  /** The same case as text: busy `["0-25"]` gives `[]`, and adding
      `"26-27"` gives `["25-26"]`. */
  lemma LateBusyFreesMinuteText()
    ensures CalculateFreeSlots(["0-25"], []) == Some([])
    ensures CalculateFreeSlots(["0-25", "26-27"], []) == Some(["25-26"])
  {
    ParseDayAndLate();
    LateBusyFreesMinute();
    RenderLateGap();
  }

  lemma ParseDayAndLate()
    ensures ParseAll(["0-25"]) == Some([Span(0, 1500)])
    ensures ParseAll(["0-25", "26-27"]) == Some([Span(0, 1500), Span(1560, 1620)])
  {
    ParseUntilLate();
    ParseLateHour();
    ParseAllOf(["0-25"], [Span(0, 1500)]);
    ParseAllOf(["0-25", "26-27"], [Span(0, 1500), Span(1560, 1620)]);
  }

  lemma ParseUntilLate()
    ensures ParseRange("0-25") == Some(Span(0, 1500))
  {
    TwoDigits(25);
    ParseHours(0, 25, "0", "25");
    assert "0-25" == "0" + "-" + "25";
  }

  lemma ParseLateHour()
    ensures ParseRange("26-27") == Some(Span(1560, 1620))
  {
    TwoDigits(26);
    TwoDigits(27);
    ParseHours(26, 27, "26", "27");
    assert "26-27" == "26" + "-" + "27";
  }

  lemma RenderLateGap()
    ensures RenderAll([Span(1500, 1560)]) == ["25-26"]
  {
    var free := [Span(1500, 1560)];
    TwoDigits(25);
    TwoDigits(26);
    RenderHours(25, 26, "25", "26");
    assert RenderSpan(free[0]) == "25-26";
    assert free[1..] == [];
  }
}
