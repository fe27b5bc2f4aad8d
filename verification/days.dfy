/** The week (main.py:42) and the day-range expansion of the busy command
    (main.py:145-151): a day field such as `"mon-fri"` becomes one schedule
    entry per day from the first named day to the last. */
module Days {
  import opened Text
  import opened Store

  /** `DAY_ORDER`, Monday first, as `datetime.weekday()` numbers the days. */
  const DayOrder: seq<string> := ["Mon", "Tue", "Wed", "Thu", "Fri", "Sat", "Sun"]

  /** `xs.index(x)`: the position of the first occurrence of `x`. */
  function IndexOf(xs: seq<string>, x: string): (i: nat)
    requires x in xs
    ensures i < |xs| && xs[i] == x
    ensures forall j :: 0 <= j < i ==> xs[j] != x
  {
    if xs[0] == x then 0
    else
      assert x in xs[1..];
      1 + IndexOf(xs[1..], x)
  }

  /** No day is listed twice. */
  lemma DayOrderDistinct()
    ensures forall i, j :: 0 <= i < j < |DayOrder| ==> DayOrder[i] != DayOrder[j]
  {
  }

  /** Looking a day up gives back its position. */
  lemma IndexOfDay(k: nat)
    requires k < |DayOrder|
    ensures IndexOf(DayOrder, DayOrder[k]) == k
  {
    DayOrderDistinct();
  }

  /** The day tokens of a busy command's day field (main.py:145). */
  function DayTokens(dayField: string): (tokens: seq<string>)
    ensures |tokens| >= 1
    ensures forall i :: 0 <= i < |tokens| ==> '-' !in tokens[i]
  {
    Split(dayField, '-')
  }

  /** `days[0].capitalize()` and `days[-1].capitalize()` (main.py:148-149). */
  function FirstDay(dayField: string): string {
    Capitalize(DayTokens(dayField)[0])
  }

  function LastDay(dayField: string): string {
    var tokens := DayTokens(dayField);
    Capitalize(tokens[|tokens| - 1])
  }

  /** Every day name is a capitalized word. */
  lemma DayOrderCapitalized(k: nat)
    requires k < |DayOrder|
    ensures CapitalizedWord(DayOrder[k])
  {
  }

  /** A token names day `k` exactly when it spells that day's name in any
      case: `"mon"`, `"MON"` and `"mOn"` all name Monday. */
  lemma CapitalizeDay(t: string, k: nat)
    requires k < |DayOrder|
    ensures Capitalize(t) == DayOrder[k] <==> SameIgnoringCase(t, DayOrder[k])
  {
    DayOrderCapitalized(k);
    CapitalizeMatches(t, DayOrder[k]);
  }

  /** Both ends name a day; `DAY_ORDER.index` raises `ValueError` otherwise. */
  predicate KnownDays(dayField: string) {
    FirstDay(dayField) in DayOrder && LastDay(dayField) in DayOrder
  }

  /** The entries `range(lo, hi + 1)` appends, one per day, in week order;
      none when `lo > hi`, since the range does not wrap around. */
  function DayEntries(lo: nat, hi: int, kind: string, time: string): (entries: seq<ScheduleEntry>)
    requires hi < |DayOrder|
    ensures |entries| == if lo <= hi then hi - lo + 1 else 0
    ensures forall k :: 0 <= k < |entries| ==> entries[k] == ScheduleEntry(DayOrder[lo + k], kind, time)
    decreases hi - lo
  {
    if lo > hi then []
    else [ScheduleEntry(DayOrder[lo], kind, time)] + DayEntries(lo + 1, hi, kind, time)
  }

  /** The entries the busy command adds for a day field: at most one per day
      of the week, each for a known day and carrying the command's type and
      time. */
  function BusyEntries(dayField: string, kind: string, time: string): (entries: seq<ScheduleEntry>)
    requires KnownDays(dayField)
    ensures |entries| <= |DayOrder|
    ensures forall e :: e in entries ==> e.day in DayOrder && e.kind == kind && e.time == time
  {
    DayEntries(IndexOf(DayOrder, FirstDay(dayField)), IndexOf(DayOrder, LastDay(dayField)), kind, time)
  }

  /** main.py:147-151 on the store: `setdefault` gives a new user an empty
      profile, then the loop appends one entry per day of the range to that
      user's schedule. `ok` is false where `DAY_ORDER.index` raises
      `ValueError`; the empty profile `setdefault` inserted stays in the store
      all the same. Nothing else in the store changes. */
  method AddBusy(users: Users, uid: string, kind: string, dayField: string, time: string)
    returns (updated: Users, ok: bool)
    ensures ok <==> KnownDays(dayField)
    ensures forall u :: u in updated <==> u in users || u == uid
    ensures forall u :: u in users && u != uid ==> updated[u] == users[u]
    ensures var before := if uid in users then users[uid] else EmptyProfile;
            && updated[uid].schedule == before.schedule + (if ok then BusyEntries(dayField, kind, time) else [])
            && updated[uid].playtime == before.playtime
            && updated[uid].games == before.games
  {
    var user := if uid in users then users[uid] else EmptyProfile;
    updated := users[uid := user];
    var first := FirstDay(dayField);
    var last := LastDay(dayField);
    if first !in DayOrder || last !in DayOrder {
      ok := false;
      return;
    }
    var startIdx := IndexOf(DayOrder, first);
    var endIdx := IndexOf(DayOrder, last);
    var schedule := AppendDays(user.schedule, startIdx, endIdx, kind, time);
    updated := users[uid := user.(schedule := schedule)];
    ok := true;
  }

  /** The loop of main.py:150-151: `for i in range(lo, hi + 1)` appends the
      entry for `DAY_ORDER[i]`. */
  method AppendDays(schedule: seq<ScheduleEntry>, lo: nat, hi: nat, kind: string, time: string)
    returns (out: seq<ScheduleEntry>)
    requires lo < |DayOrder| && hi < |DayOrder|
    ensures out == schedule + DayEntries(lo, hi, kind, time)
  {
    out := schedule;
    var i := lo;
    while i < hi + 1
      invariant lo <= i
      invariant i <= hi + 1 || i == lo
      invariant out == schedule + DayEntries(lo, i - 1, kind, time)
      decreases hi + 1 - i
    {
      ExtendEntries(lo, i, kind, time);
      out := out + [ScheduleEntry(DayOrder[i], kind, time)];
      i := i + 1;
    }
    if lo > hi {
      assert DayEntries(lo, hi, kind, time) == [];
    }
  }

  /** One more loop step appends the entry for day `i`. */
  lemma ExtendEntries(lo: nat, i: nat, kind: string, time: string)
    requires lo <= i < |DayOrder|
    ensures DayEntries(lo, i, kind, time)
            == DayEntries(lo, i - 1, kind, time) + [ScheduleEntry(DayOrder[i], kind, time)]
  {
  }

  /** Filtering a longer schedule by day filters each part. */
  lemma {:induction false} BusyTimesOnAppend(a: seq<ScheduleEntry>, b: seq<ScheduleEntry>, day: string)
    ensures BusyTimesOn(a + b, day) == BusyTimesOn(a, day) + BusyTimesOn(b, day)
    decreases |a|
  {
    if |a| > 0 {
      assert (a + b)[1..] == a[1..] + b;
      BusyTimesOnAppend(a[1..], b, day);
    } else {
      assert a + b == b;
    }
  }

  /** The expanded range adds `time` once to each day it covers and nothing
      to the others. */
  lemma {:induction false} BusyTimesOnEntries(lo: nat, hi: int, kind: string, time: string, k: nat)
    requires hi < |DayOrder| && k < |DayOrder|
    ensures BusyTimesOn(DayEntries(lo, hi, kind, time), DayOrder[k])
            == if lo <= k <= hi then [time] else []
    decreases hi - lo
  {
    DayOrderDistinct();
    var entries := DayEntries(lo, hi, kind, time);
    if lo <= hi {
      BusyTimesOnEntries(lo + 1, hi, kind, time, k);
      assert entries[1..] == DayEntries(lo + 1, hi, kind, time);
    }
  }

  /** After the busy command, a day's busy strings, as `mutual_free` reads
      them, are the old ones plus `time` exactly when the day lies in the
      range. */
  lemma AddBusyDayFilter(schedule: seq<ScheduleEntry>, dayField: string, kind: string, time: string, k: nat)
    requires KnownDays(dayField) && k < |DayOrder|
    ensures BusyTimesOn(schedule + BusyEntries(dayField, kind, time), DayOrder[k])
            == BusyTimesOn(schedule, DayOrder[k])
               + if IndexOf(DayOrder, FirstDay(dayField)) <= k <= IndexOf(DayOrder, LastDay(dayField))
                 then [time] else []
  {
    var lo := IndexOf(DayOrder, FirstDay(dayField));
    var hi := IndexOf(DayOrder, LastDay(dayField));
    BusyTimesOnAppend(schedule, DayEntries(lo, hi, kind, time), DayOrder[k]);
    BusyTimesOnEntries(lo, hi, kind, time, k);
  }

  /** A day field without `-` names a single day: one entry for that day. */
  lemma SingleDay(dayField: string, kind: string, time: string)
    requires '-' !in dayField && Capitalize(dayField) in DayOrder
    ensures KnownDays(dayField)
    ensures BusyEntries(dayField, kind, time) == [ScheduleEntry(Capitalize(dayField), kind, time)]
  {
    SplitNoSeparator(dayField, '-');
  }

  /** A field `a-b` ranges from day `a` to day `b`. */
  lemma TwoDays(a: string, b: string)
    requires '-' !in a && '-' !in b
    ensures FirstDay(a + "-" + b) == Capitalize(a)
    ensures LastDay(a + "-" + b) == Capitalize(b)
  {
    SplitTwo(a, b, '-');
  }
}
