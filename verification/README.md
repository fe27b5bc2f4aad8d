# Free-time engine of the SLOPY scheduling bot

The bot keeps, per Discord user, a list of busy entries (`day`, `type`,
`time` such as `"9-17"`) and playtime entries (`day`, `time`). Asked who is
free, it computes for every mentioned user the hours of today that are not
busy and, if the user declared playtimes for today, that lie inside one of
them; then it reports the hour ranges, as strings, that every mentioned
user has free. This project models that engine in Dafny and proves its
properties:

- `Text`: Python's `str.split`, `int()` on ASCII text, `f"{n}"`,
  `str.capitalize` on ASCII letters, and Python's `<` on strings.
- `Spans`: hour-range strings `"H-H"` parsed to minute pairs and rendered
  back.
- `SpanSort`: `list.sort()` on `(start, end)` tuples.
- `BusyComplement`: the cursor sweep that turns busy ranges into free
  ranges.
- `Intersection`: the nested loop intersecting free ranges with playtime
  ranges.
- `FreeSlots`: `calculate_free_slots` end to end.
- `Store`, `SortedStrings`, `Mutual`: the per-user records, `sorted` on a
  set of strings, and `mutual_free`.
- `Days`: `DAY_ORDER` and the day-range expansion of the busy command.

Python raising an exception on a malformed time string is modelled as
`None` (`Options.Option`). A `ValueError` for an unknown day name in the
busy command is modelled as a `false` flag next to the store as it then
stands. A `KeyError` for an unknown user is a precondition, because the
calling code rules it out (main.py:176-179).

The code validates nothing and matches slots as strings:

- Nothing is validated. A reversed busy range such as `"12-9"` is accepted
  (`ParseBackwards`), and `calculate_free_slots(["12-9"], [])` returns
  `["0-12", "9-24"]`, two ranges that overlap (`ReversedBusyText`). The free
  ranges are still ordered by start and, within the day, still hold exactly
  the minutes no busy range holds, for every input; only their disjointness
  needs forward busy ranges (`ComplementChained`).
- An empty busy range such as `"9-9"` blocks nothing but still splits the
  day: the result is `["0-9", "9-24"]`, not `["0-24"]` (`EmptyBusyText`).
- Mutual availability intersects slot strings, not minutes. `"0-9","18-24"`
  and `"8-20"` have no common slot (`StringsNotRanges`), although their hours
  18-20 overlap.
- No playtime gives the same result as the playtime `"0-24"` when no busy
  range starts after hour 24 (`PreferenceDefault`). Otherwise the two can
  differ: busy `["25-26"]` gives `["0-25"]` with no playtime but `["0-24"]`
  with `"0-24"` (`LateBusyBreaksDefault` on ranges, `LateBusyText` on text).
- Hours past 24 are not cut off, so a free slot can lie outside the day and
  adding a busy range can free one: busy `["0-25"]` gives `[]`, and adding
  `"26-27"` gives `["25-26"]` (`LateBusyFreesMinute` on ranges,
  `LateBusyFreesMinuteText` on text). Monotonicity holds only for the
  minutes of the day (`ComplementMonotone`).

## Model

| member | source | states |
|---|---|---|
| Text.Split | main.py:48 | `str.split` on one separator: one piece more than there are separators, and no piece contains the separator |
| Text.JoinSplit | main.py:48 | joining the pieces of a split with the separator gives back the original text |
| Text.SplitTwo | main.py:48 | `a + "-" + b` with no `-` in `a` or `b` splits into exactly `[a, b]` |
| Text.SplitNoSeparator | main.py:145 | a text without the separator splits into itself alone |
| Text.IntToDecimal | main.py:76 | `f"{i}"` for any integer: a minus sign exactly for negative `i`, then a digit string without leading zero whose value is `i` or `-i` |
| Text.NatToDecimal | main.py:76 | `f"{n}"` for `n >= 0` is a non-empty digit string without leading zero whose decimal value is `n`; it starts with `0` only for `n == 0` |
| Text.PyInt | main.py:48 | `int()` of a text with no minus sign, when it succeeds, is non-negative |
| Text.PyIntOfDigits | main.py:48 | `int()` of a plain digit string is its decimal value |
| Text.PyIntOfDecimal | main.py:76 | `int()` reads back exactly the number `f"{n}"` wrote, for every `n >= 0` |
| Text.RemoveUnderscores | main.py:48 | dropping `_` digit-group separators from digits and underscores leaves only digits, and a pure digit string unchanged |
| Text.RemoveUnderscoresKeeps | main.py:48 | a character survives the dropping of underscores exactly when it is in the text and is not `_` |
| Text.RemoveUnderscoresAppend | main.py:48 | dropping underscores from a concatenation drops them from each part, so the kept characters stay in order |
| Text.PyIntGrouped | main.py:48 | `int()` of two digit runs joined by `_`, as in `"1_000"`, is the value of the digits without the underscore |
| Text.Strip | main.py:48 | `str.strip` as `int()` applies it: the result is no longer than the text and neither starts nor ends with whitespace; `PyIntShape` and `PyIntRejects` state what `int()` then accepts |
| Text.StripLeftEnds | main.py:48 | stripping on the left leaves a text that does not start with whitespace |
| Text.StripRightEnds | main.py:48 | stripping on the right leaves a text that does not end with whitespace and keeps its first character |
| Text.SignedValue | main.py:48 | the stripped text read as an optional sign and digit groups; without `-` the value is non-negative, and `PyIntShape`/`PyIntRejects` state which texts it accepts |
| Text.StripLeftSuffix | main.py:48 | stripping on the left removes a run of leading whitespace and keeps the rest |
| Text.StripRightPrefix | main.py:48 | stripping on the right removes a run of trailing whitespace and keeps the rest |
| Text.PyIntShape | main.py:48 | text `int()` accepts holds a digit and only whitespace, signs, digits and `_` |
| Text.PyIntRejects | main.py:48 | text with no digit, or with any other character, makes `int()` raise |
| Text.PyIntRejections | main.py:48 | `int("")`, `int("9x")` and `int("9\x1c")` all raise |
| Text.StripAddsNothing | main.py:48 | stripping whitespace introduces no character that was not there |
| Text.Capitalize | main.py:148-149 | `str.capitalize` on ASCII: same length, first character upper-cased, every other one lower-cased; `CapitalizeMatches` states which tokens capitalise to a given word |
| Text.CapitalizeMatches | main.py:148-149 | `t.capitalize()` equals a capitalised word exactly when `t` spells that word in any mix of ASCII case |
| Text.LexLess | main.py:93 | Python's `<` on strings, as `sorted` uses it; its meaning is stated by `LexLessMeaning` and its order laws by the four lemmas below |
| Text.LexLessMeaning | main.py:93 | the recursive string order holds exactly when the first string is a proper prefix of the second or is smaller at the first difference |
| Text.LexLessIrreflexive | main.py:93 | no string sorts before itself |
| Text.LexLessTransitive | main.py:93 | the string order is transitive |
| Text.LexLessTotal | main.py:93 | of two different strings one sorts before the other |
| Text.LexLessAsymmetric | main.py:93 | two strings never sort before each other |
| Spans.ParseRange | main.py:48-49 | a parsed `"H-H"` string splits into exactly two pieces and yields two non-negative whole-hour minute counts |
| Spans.ParseRangeOfTwo | main.py:48-49 | `a-b` without another `-` parses exactly when `int()` accepts both halves, to `(int(a)*60, int(b)*60)` |
| Spans.ParseRangeDigits | main.py:48-49 | two non-empty digit runs around `-` parse to their decimal values times 60 |
| Spans.ParseHours | main.py:48-49 | the text `str(h)-str(k)` parses to `(h*60, k*60)` |
| Spans.RenderHours | main.py:76 | the range `(h*60, k*60)` is written `str(h)-str(k)` |
| Spans.ParseBackwards | main.py:48-49 | `"12-9"` is accepted and parses to the reversed range `(720, 540)` |
| Spans.HoursToMinutes | main.py:49 | `h*60` is a multiple of 60, `(h*60)//60 == h`, and it is non-negative for `h >= 0` |
| Spans.WholeHours | main.py:76 | `(s//60)*60 == s` for every multiple of 60 |
| Spans.RenderSpan | main.py:76 | `f"{s//60}-{e//60}"`: for non-negative ends, text that splits at `-` into exactly the two hour numbers; `ParseRender` and `RenderHours` give its round trip and exact text |
| Spans.ParseRender | main.py:76 | rendering a whole-hour range and parsing the text gives back the same range |
| Spans.ParseAll | main.py:47-49 | the list parses exactly when every string does, and then has one range per string, range `i` being the parse of string `i` |
| Spans.RenderAll | main.py:76 | one text per range, text `i` being the rendering of range `i` |
| Spans.ParseAllOf | main.py:47-49 | strings that parse one by one to the given ranges parse as a list to those ranges |
| Spans.ParseRenderAll | main.py:76 | parsing every rendered range gives back the whole range list |
| SpanSort.SpanLeq | main.py:50 | Python's order on `(start, end)` tuples; `SortedUnique` shows that sorting by it fixes the result |
| SpanSort.Insert | main.py:50 | inserting into a tuple-sorted list keeps it sorted and adds exactly that element |
| SpanSort.Sort | main.py:50 | the result is sorted in `(start, end)` tuple order and is a permutation of the input |
| SpanSort.SortedUnique | main.py:50 | two sorted permutations of one list are equal, so any correct sort, Python's included, gives this result |
| BusyComplement.Sweep | main.py:52-59 | every emitted range starts at or after the cursor and has positive width |
| BusyComplement.Complement | main.py:45-59 | every free range lies at or after minute 0 and has positive width; no busy ranges give exactly `[(0, 1440)]` |
| BusyComplement.SweepChained | main.py:53-58 | with forward busy ranges, each emitted range ends no later than the next one starts |
| BusyComplement.ComplementChained | main.py:50-59 | with forward busy ranges the free list is ordered by start and pairwise disjoint |
| BusyComplement.SweepCoverage | main.py:53-59 | over sorted busy ranges, reversed ones included, a minute from the cursor to 1440 is emitted exactly when no busy range holds it |
| BusyComplement.SweepStartsOrdered | main.py:53-59 | the emitted gaps start in non-decreasing order, whatever the busy ranges |
| BusyComplement.ComplementStartsOrdered | main.py:50-59 | the free ranges start in non-decreasing order for every busy list |
| BusyComplement.ComplementCoverage | main.py:50-59 | a minute of the day is free exactly when no busy range holds it |
| BusyComplement.CoversPermutation | main.py:50 | reordering ranges does not change which minutes they hold |
| BusyComplement.ComplementOrderIrrelevant | main.py:47-50 | busy lists that are permutations of each other give the same free list |
| BusyComplement.ComplementMonotone | main.py:52-59 | adding a busy range never frees a minute of the day |
| BusyComplement.SweepWithinDay | main.py:53-59 | busy ranges starting by 1440 give free ranges inside `[0, 1440]` |
| BusyComplement.ComplementWithinDay | main.py:45-59 | busy ranges starting by 1440 give free ranges inside the day |
| BusyComplement.SweepAligned | main.py:53-59 | whole-hour busy ranges and cursor give whole-hour free ranges |
| BusyComplement.ComplementAligned | main.py:49-59 | whole-hour busy ranges give whole-hour free ranges |
| BusyComplement.ReversedBusyOverlaps | main.py:50-59 | the reversed busy range `(720, 540)`, which `"12-9"` parses to, yields `[(0,720),(540,1440)]`, two overlapping ranges |
| Intersection.Overlap | main.py:70-71 | the overlap holds a minute exactly when both ranges hold it |
| Intersection.OverlapRow | main.py:69-73 | every range the inner loop keeps has positive width |
| Intersection.Intersect | main.py:67-74 | every range the nested loop keeps has positive width |
| Intersection.OverlapRowCoverage | main.py:69-73 | the inner loop's output holds a minute exactly when the free range and some play range hold it |
| Intersection.IntersectCoverage | main.py:67-74 | the intersection holds a minute exactly when some free range and some play range hold it |
| Intersection.IntersectCommutesOnMinutes | main.py:67-74 | swapping free and play ranges changes the order of the output but not the minutes it holds |
| Intersection.PositiveOnly | main.py:72-73 | the `s < e` filter keeps only positive-width ranges |
| Intersection.PositiveOnlyAppend | main.py:72-73 | filtering a concatenation filters each part |
| Intersection.OverlapRowIsRow | main.py:69-73 | the inner loop is the filtered row of overlaps of one free range with every play range, in play order |
| Intersection.CandidatesSplit | main.py:68-69 | the candidate list in free-outer, play-inner order starts with the first free range's row |
| Intersection.IntersectOrder | main.py:67-74 | the output is the list of all `len(free)*len(play)` overlaps, pair `k` being free range `k // len(play)` with play range `k % len(play)`, filtered to positive width |
| Intersection.IntersectFullDay | main.py:67-74 | intersecting positive-width ranges inside the day with `[(0, 1440)]` changes nothing |
| Intersection.OverlapRowAligned | main.py:69-73 | overlaps of whole-hour ranges are whole-hour ranges |
| Intersection.IntersectAligned | main.py:67-74 | intersecting whole-hour ranges gives whole-hour ranges |
| FreeSlots.FreeRanges | main.py:50-74 | every range before rendering has positive width |
| FreeSlots.CalculateFreeSlots | main.py:44-77 | a result exists exactly when every busy string parses and, if there are playtime strings, every one of them parses |
| FreeSlots.FreeRangesCoverage | main.py:50-74 | a minute of the day is free exactly when no busy range holds it and, if play ranges were given, one of them does |
| FreeSlots.FreeRangesPreferenceDefault | main.py:61-74 | with no busy range starting after 1440, no play ranges give the same list as the play range `(0, 1440)` |
| FreeSlots.FreeRangesAligned | main.py:49-74 | whole-hour inputs give whole-hour free ranges |
| FreeSlots.TextCoversParsed | main.py:47-49 | a minute is held by some parsed string exactly when it is held by the parsed list |
| FreeSlots.CalculateFreeSlotsCoverage | main.py:44-77 | every output string parses, and a minute of the day lies in an output string exactly when it lies in no busy string and, if playtime strings were given, in one of them |
| FreeSlots.WholeDayText | main.py:76 | the whole day renders as `"0-24"` and `"0-24"` parses back to it |
| FreeSlots.PreferenceDefault | main.py:61-62 | with no busy string starting after hour 24, no playtime strings give the same result as the playtime `"0-24"` |
| FreeSlots.LateBusyBreaksDefault | main.py:61-74 | busy `(1500, 1560)`, from `"25-26"`, leaves `[(0,1500)]` with no playtime but `[(0,1440)]` with the playtime `(0, 1440)`, so the default needs its hypothesis |
| FreeSlots.LateBusyText | main.py:44-77 | `calculate_free_slots(["25-26"], [])` returns `["0-25"]` but `calculate_free_slots(["25-26"], ["0-24"])` returns `["0-24"]` |
| FreeSlots.LateBusyFreesMinute | main.py:50-59 | busy `(0, 1500)` leaves nothing free, yet adding `(1560, 1620)` frees `(1500, 1560)`, so adding a busy range can free a minute after the day |
| FreeSlots.LateBusyFreesMinuteText | main.py:44-77 | `calculate_free_slots(["0-25"], [])` returns `[]` and `calculate_free_slots(["0-25", "26-27"], [])` returns `["25-26"]` |
| FreeSlots.ParseLateBusy | main.py:47-49 | `["25-26"]` parses to `[(1500,1560)]`, past the end of the day |
| FreeSlots.ParseDayAndLate | main.py:47-49 | `["0-25"]` parses to `[(0,1500)]` and `["0-25", "26-27"]` to `[(0,1500),(1560,1620)]` |
| FreeSlots.SortKeepsSorted | main.py:50 | sorting an already sorted list leaves it as it is |
| FreeSlots.WorkdayFree | main.py:50-59 | busy `(540, 1020)` leaves `[(0,540),(1020,1440)]` free |
| FreeSlots.EveningPlaytime | main.py:50-74 | busy `(540, 1020)` with playtime `(1080, 1380)` leaves exactly `[(1080, 1380)]` |
| FreeSlots.EmptyBusySplitsDay | main.py:50-59 | the empty busy range `(540, 540)` leaves `[(0,540),(540,1440)]`, the day split in two |
| FreeSlots.EmptyBusyText | main.py:44-77 | `calculate_free_slots(["9-9"], [])` returns `["0-9", "9-24"]` |
| FreeSlots.ReversedBusyText | main.py:44-77 | `calculate_free_slots(["12-9"], [])` returns the overlapping `["0-12", "9-24"]` |
| FreeSlots.MorningAndAfternoonBusy | main.py:44-77 | `calculate_free_slots(["9-12", "13-17"], [])` returns `["0-9", "12-13", "17-24"]` |
| FreeSlots.ParseMorningAndAfternoon | main.py:47-49 | `["9-12", "13-17"]` parses to `[(540,720),(780,1020)]` |
| FreeSlots.MorningAndAfternoonFree | main.py:50-59 | busy `(540,720)` and `(780,1020)` leave `[(0,540),(720,780),(1020,1440)]` free |
| FreeSlots.RenderThreeGaps | main.py:76 | those three free ranges are written `["0-9", "12-13", "17-24"]` |
| Store.BusyTimesOn | main.py:85 | a time is in the filtered list exactly when some schedule entry of that day carries it |
| Store.PlayTimesOn | main.py:86 | a time is in the filtered list exactly when some playtime entry of that day carries it |
| SortedStrings.LeastOfInsert | main.py:93 | adding one string to a set with a least member leaves a set with a least member |
| SortedStrings.LeastExists | main.py:93 | every non-empty finite set of strings has a least member |
| SortedStrings.Least | main.py:93 | the chosen member is in the set and sorts before every other member |
| SortedStrings.SortedElements | main.py:93 | the list is strictly increasing in string order and holds exactly the set's members |
| SortedStrings.StrictlySortedUnique | main.py:93 | two strictly increasing lists with the same members are equal |
| Mutual.UserFreeSlots | main.py:83-87 | one user's `calculate_free_slots` on that day's busy and playtime strings; `SlotLists` and `MutualFree` state what the results mean together |
| Mutual.Common | main.py:81-92 | the accumulated set exists exactly when every user's strings parse, and holds exactly the slots in every user's list |
| Mutual.SlotLists | main.py:82-87 | one result per listed user; all of them exist exactly when every user's strings parse, and they share a slot exactly when every listed user has it free |
| Mutual.MutualFree | main.py:79-93 | no users give `[]`; a result exists exactly when every user's strings parse; it is strictly increasing and holds exactly the slots every listed user has free |
| Mutual.SortedDistinct | main.py:93 | the distinct members of a list, strictly increasing |
| Mutual.MutualFreeSingle | main.py:79-93 | one user gives that user's slots, sorted and without duplicates, and fails exactly when that user's computation does |
| Mutual.SameUsersSameSlots | main.py:82-92 | two user lists with the same members agree on whether all parse and on every shared slot |
| Mutual.MutualFreeUserSet | main.py:88-93 | two user lists with the same members give the same result |
| Mutual.MutualFreePermutation | main.py:82-93 | permuting the user list does not change the result |
| Mutual.MutualFreeSelf | main.py:88-93 | listing a user twice gives the same result as listing them once |
| Mutual.StringsNotRanges | main.py:88-92 | slots `"0-9","18-24"` and `"8-20"` have no slot in common although their hours overlap |
| Days.FirstDay | main.py:148 | `days[0].capitalize()`; `TwoDays` and `SingleDay` pin it for `a-b` and for a single day |
| Days.LastDay | main.py:149 | `days[-1].capitalize()`; `TwoDays` and `SingleDay` pin it for `a-b` and for a single day |
| Days.IndexOf | main.py:148-149 | `list.index` returns a position holding the value with no earlier occurrence |
| Days.DayOrderDistinct | main.py:42 | the seven day names are pairwise different |
| Days.DayOrderCapitalized | main.py:42 | every day name is one upper-case letter followed by lower-case ones |
| Days.CapitalizeDay | main.py:148-149 | a token names day `k` exactly when it spells that day's name in any ASCII case, so `"mon"`, `"MON"` and `"mOn"` all name Monday |
| Days.IndexOfDay | main.py:148-149 | looking up the day at position `k` gives `k` |
| Days.DayTokens | main.py:145 | the day field splits into at least one token and no token contains `-` |
| Days.DayEntries | main.py:150-151 | `range(lo, hi+1)` gives `hi-lo+1` entries, entry `k` for day `lo+k`, and none when `lo > hi` |
| Days.ExtendEntries | main.py:150-151 | one more loop step appends exactly the entry for day `i` |
| Days.AppendDays | main.py:150-151 | the loop leaves the old schedule as prefix and appends exactly the range's entries, in week order |
| Days.KnownDays | main.py:148-149 | both ends of the day field name a day, which is when `DAY_ORDER.index` does not raise; `AddBusy` succeeds exactly then |
| Days.BusyEntries | main.py:148-151 | the command adds at most seven entries, each for a known day and with the command's type and time; `AddBusyDayFilter` states which days gain the time |
| Days.AddBusy | main.py:145-151 | the command succeeds exactly when both ends name a day; the user is in the store either way (with an empty profile if new), their schedule gains the range's entries only on success, and playtime, games and every other user are unchanged |
| Days.BusyTimesOnAppend | main.py:85 | filtering a concatenated schedule by day filters each part |
| Days.BusyTimesOnEntries | main.py:150-151 | the appended entries contribute the time once to each day from `lo` to `hi` and nothing to the other days |
| Days.AddBusyDayFilter | main.py:145-151 | after the command a day's busy strings are the old ones plus the time exactly when the day lies in the range |
| Days.SingleDay | main.py:145-151 | a day field without `-` adds one entry, for that day |
| Days.TwoDays | main.py:145-149 | the field `a-b` runs from the capitalised `a` to the capitalised `b` |

## Left out

- The Discord client, its event handler, message and mention parsing, and
  reply formatting (main.py:96-203) are user-interface glue. The order of the
  command tests is not modelled either. As written, `startswith("play")`
  (main.py:128) comes before `startswith("playtime")` (main.py:156), so
  a playtime message is taken as a game named `time ...`.
- The Flask keep-alive server and its thread (main.py:15-26) are network
  and concurrency.
- Loading and saving `data.json` (main.py:29-39) is file I/O. The store is
  an immutable map passed in, and `AddBusy` returns the updated map.
- `random.choice` (main.py:190, 201) and `datetime.today()` (main.py:181)
  are nondeterministic or environment-dependent. The day is a parameter.
- The play and playtime commands (main.py:128-136, 156-166) only append one
  record. They are not modelled beyond the record types in `Store`.
- Text.PyInt: recognises ASCII digits and, as whitespace, only tab, line
  feed, vertical tab, form feed, carriage return and space (the ASCII
  characters `int()` strips; the separators U+001C to U+001F are rejected).
  Python's `int()` also accepts non-ASCII decimal digits and whitespace; such
  text is modelled as a parse failure. It also does not model CPython's limit
  on the length of decimal text (`sys.int_info.default_max_str_digits`, 4300
  digits since 3.11 and in 3.10.7, 3.9.14 and 3.8.14), above which `int()`
  raises `ValueError`; the model reads such text as its value. A Discord
  message is far shorter than that.
- Text.PyIntOfDigits: claims the decimal value for digit strings of any
  length, including those over CPython's 4300-digit limit where `int()`
  raises (see Text.PyInt).
- Text.PyIntGrouped: likewise claims a value beyond the 4300-digit limit.
- Spans.ParseRangeDigits: likewise claims a range for digit runs beyond the
  4300-digit limit.
- Text.NatToDecimal: `str(n)` raises above the same limit; the model writes
  every `n`.
- Text.Capitalize: changes the case of ASCII letters only. Python's
  `capitalize()` also maps other Unicode letters, so the busy command accepts
  more day names than the model: since Python 3.8 `"ſun".capitalize()`
  (U+017F first) is `"Sun"`, which main.py:148 accepts, while `AddBusy`
  returns `ok == false` for it. `CapitalizeMatches` and `CapitalizeDay` hold
  for this ASCII capitalize only.
- Days.AddBusy: on an unknown day name the model returns the store with the
  `setdefault` profile in it and a `false` flag. It does not model that the
  exception also skips `save_data()` (main.py:152), so the new profile
  reaches `data.json` only with a later save; file I/O is left out as a
  whole.
- Mutual.MutualFree: an unknown user id, where `data["users"][user_id]`
  raises `KeyError`, is a precondition. The only caller checks it first.
