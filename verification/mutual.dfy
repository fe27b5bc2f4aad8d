/** `mutual_free` (main.py:79-93): each listed user's free slots for one day,
    intersected as sets of strings, returned in string order. */
module Mutual {
  import opened Options
  import opened Store
  import opened FreeSlots
  import opened SortedStrings

  /** Every listed user has a profile; the source would raise `KeyError`
      otherwise, and its only caller checks this first (main.py:176-179). */
  predicate AllKnown(users: Users, ids: seq<string>) {
    forall i :: 0 <= i < |ids| ==> ids[i] in users
  }

  /** main.py:83-87 for one user: the day's busy and playtime strings of that
      user, through `calculate_free_slots`. */
  function UserFreeSlots(users: Users, id: string, day: string): Option<seq<string>>
    requires id in users
  {
    var profile := users[id];
    CalculateFreeSlots(BusyTimesOn(profile.schedule, day), PlayTimesOn(profile.playtime, day))
  }

  /** Every listed user's strings for `day` parse. */
  predicate AllParse(users: Users, ids: seq<string>, day: string)
    requires AllKnown(users, ids)
  {
    forall i :: 0 <= i < |ids| ==> UserFreeSlots(users, ids[i], day).Some?
  }

  /** Slot string `x` is among the free slots of every listed user. */
  predicate FreeForAll(users: Users, ids: seq<string>, day: string, x: string)
    requires AllKnown(users, ids)
  {
    forall i :: 0 <= i < |ids| ==>
      var slots := UserFreeSlots(users, ids[i], day); slots.Some? && x in slots.value
  }

  /** The per-user results, in the order the users are listed: all of them
      exist exactly when every user's strings parse, and they share a slot
      exactly when every user has it free. */
  function SlotLists(users: Users, ids: seq<string>, day: string): (lists: seq<Option<seq<string>>>)
    requires AllKnown(users, ids)
    ensures |lists| == |ids|
    ensures AllParsed(lists) <==> AllParse(users, ids, day)
    ensures forall x :: InEvery(lists, x) <==> FreeForAll(users, ids, day, x)
  {
    var lists := seq(|ids|, i requires 0 <= i < |ids| => UserFreeSlots(users, ids[i], day));
    assert forall i :: 0 <= i < |ids| ==> lists[i] == UserFreeSlots(users, ids[i], day);
    lists
  }

  /** Every entry of `lists` is a result. */
  predicate AllParsed(lists: seq<Option<seq<string>>>) {
    forall i :: 0 <= i < |lists| ==> lists[i].Some?
  }

  /** `x` is in every entry of `lists`. */
  predicate InEvery(lists: seq<Option<seq<string>>>, x: string) {
    forall i :: 0 <= i < |lists| ==> lists[i].Some? && x in lists[i].value
  }

  /** The loop of main.py:82-92 over the per-user results: the first user's
      slot set seeds `all_free`, every later user's set is intersected into
      it. `None` as soon as one user's strings fail to parse. */
  function Common(lists: seq<Option<seq<string>>>): (r: Option<set<string>>)
    requires |lists| > 0
    ensures r.Some? <==> AllParsed(lists)
    ensures r.Some? ==> forall x :: x in r.value <==> InEvery(lists, x)
    decreases |lists|
  {
    var last := lists[|lists| - 1];
    if |lists| == 1 then
      var slots :- last;
      Some(set x | x in slots)
    else
      var acc :- Common(lists[..|lists| - 1]);
      var slots :- last;
      Some(acc * set x | x in slots)
  }

  /** `mutual_free(ids, day)`: the slot strings every listed user has free,
      each once, in string order; the empty list for no users or no common
      slot; `None` where Python raises on an unparsable time string. */
  function MutualFree(users: Users, ids: seq<string>, day: string): (r: Option<seq<string>>)
    requires AllKnown(users, ids)
    ensures |ids| == 0 ==> r == Some([])
    ensures r.Some? <==> AllParse(users, ids, day)
    ensures r.Some? ==> StrictlySorted(r.value)
    ensures r.Some? ==> forall x :: x in r.value <==> |ids| > 0 && FreeForAll(users, ids, day, x)
  {
    if |ids| == 0 then Some([])
    else
      var common :- Common(SlotLists(users, ids, day));
      Some(if common == {} then [] else SortedElements(common))
  }

  /** The distinct members of `xs`, in string order. */
  function SortedDistinct(xs: seq<string>): (r: seq<string>)
    ensures StrictlySorted(r)
    ensures forall x :: x in r <==> x in xs
  {
    SortedElements(set x | x in xs)
  }

  /** Asking about one user gives that user's own slots, sorted and without
      duplicates. */
  lemma MutualFreeSingle(users: Users, id: string, day: string)
    requires id in users
    ensures UserFreeSlots(users, id, day).None? ==> MutualFree(users, [id], day).None?
    ensures UserFreeSlots(users, id, day).Some? ==>
              MutualFree(users, [id], day) == Some(SortedDistinct(UserFreeSlots(users, id, day).value))
  {
    var r := MutualFree(users, [id], day);
    var slots := UserFreeSlots(users, id, day);
    if slots.Some? {
      assert r.Some?;
      StrictlySortedUnique(r.value, SortedDistinct(slots.value));
    }
  }

  /** Only the set of users matters: neither their order nor repetitions
      change the answer. */
  lemma MutualFreeUserSet(users: Users, a: seq<string>, b: seq<string>, day: string)
    requires AllKnown(users, a) && AllKnown(users, b)
    requires forall u :: u in a <==> u in b
    ensures MutualFree(users, a, day) == MutualFree(users, b, day)
  {
    assert |a| > 0 ==> a[0] in b;
    assert |b| > 0 ==> b[0] in a;
    SameUsersSameSlots(users, a, b, day);
    var ra := MutualFree(users, a, day);
    var rb := MutualFree(users, b, day);
    if ra.Some? && |a| > 0 {
      StrictlySortedUnique(ra.value, rb.value);
    }
  }

  lemma SameUsersSameSlots(users: Users, a: seq<string>, b: seq<string>, day: string)
    requires AllKnown(users, a) && AllKnown(users, b)
    requires forall u :: u in a <==> u in b
    ensures AllParse(users, a, day) <==> AllParse(users, b, day)
    ensures forall x :: FreeForAll(users, a, day, x) <==> FreeForAll(users, b, day, x)
  {
    forall i | 0 <= i < |a|
      ensures exists j :: 0 <= j < |b| && b[j] == a[i]
    {
      assert a[i] in b;
    }
    forall j | 0 <= j < |b|
      ensures exists i :: 0 <= i < |a| && a[i] == b[j]
    {
      assert b[j] in a;
    }
  }

  /** Permuting the list of users does not change the answer. */
  lemma MutualFreePermutation(users: Users, a: seq<string>, b: seq<string>, day: string)
    requires AllKnown(users, a)
    requires multiset(a) == multiset(b)
    ensures AllKnown(users, b)
    ensures MutualFree(users, a, day) == MutualFree(users, b, day)
  {
    forall u
      ensures u in a <==> u in b
    {
      assert u in a <==> u in multiset(a);
      assert u in b <==> u in multiset(b);
    }
    forall j | 0 <= j < |b|
      ensures b[j] in users
    {
      assert b[j] in a;
    }
    MutualFreeUserSet(users, a, b, day);
  }

  /** Listing a user twice is the same as listing them once. */
  lemma MutualFreeSelf(users: Users, id: string, day: string)
    requires id in users
    ensures MutualFree(users, [id, id], day) == MutualFree(users, [id], day)
  {
    MutualFreeUserSet(users, [id, id], [id], day);
  }

  /** Slots are matched as strings, not as minute ranges: `"0-9","18-24"`
      and `"8-20"` share the hours 8-9 and 18-20 but no slot string. */
  lemma StringsNotRanges()
    ensures Common([Some(["0-9", "18-24"]), Some(["8-20"])]) == Some({})
  {
    var lists: seq<Option<seq<string>>> := [Some(["0-9", "18-24"]), Some(["8-20"])];
    assert AllParsed(lists);
    var r := Common(lists);
    assert r.value == {};
  }
}
