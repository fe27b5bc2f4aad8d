/** The per-user records `mutual_free` reads and the busy command appends to
    (main.py:133, 147, 151, 164). The JSON store itself becomes an immutable
    map from user id to profile. */
module Store {

  /** One `{"day", "type", "time"}` record of `user["schedule"]`. */
  datatype ScheduleEntry = ScheduleEntry(day: string, kind: string, time: string)

  /** One `{"day", "time"}` record of `user["playtime"]`. */
  datatype PlaytimeEntry = PlaytimeEntry(day: string, time: string)

  /** `data["users"][id]`; a key missing from the JSON reads as empty, as
      `.get("schedule", [])` does. */
  datatype Profile = Profile(schedule: seq<ScheduleEntry>, playtime: seq<PlaytimeEntry>, games: seq<string>)

  type Users = map<string, Profile>

  /** The profile `setdefault` creates for a new user. */
  const EmptyProfile: Profile := Profile([], [], [])

  /** `[s["time"] for s in schedule if s["day"] == day]` (main.py:85). */
  function BusyTimesOn(schedule: seq<ScheduleEntry>, day: string): (times: seq<string>)
    ensures |times| <= |schedule|
    ensures forall t :: t in times <==>
              exists i :: 0 <= i < |schedule| && schedule[i].day == day && schedule[i].time == t
    decreases |schedule|
  {
    if |schedule| == 0 then []
    else
      var rest := BusyTimesOn(schedule[1..], day);
      assert forall i :: 1 <= i < |schedule| ==> schedule[i] == schedule[1..][i - 1];
      (if schedule[0].day == day then [schedule[0].time] else []) + rest
  }

  /** `[p["time"] for p in playtime if p["day"] == day]` (main.py:86). */
  function PlayTimesOn(playtime: seq<PlaytimeEntry>, day: string): (times: seq<string>)
    ensures |times| <= |playtime|
    ensures forall t :: t in times <==>
              exists i :: 0 <= i < |playtime| && playtime[i].day == day && playtime[i].time == t
    decreases |playtime|
  {
    if |playtime| == 0 then []
    else
      var rest := PlayTimesOn(playtime[1..], day);
      assert forall i :: 1 <= i < |playtime| ==> playtime[i] == playtime[1..][i - 1];
      (if playtime[0].day == day then [playtime[0].time] else []) + rest
  }
}
