/** The tracker's use of `localStorage`: the two keys it writes, what it stores
    under them, and `loadActivities` (script.js:153-172). Values are kept typed; the
    JSON text and ISO-8601 instants they are serialised to are not modelled. */
module Storage {

  import opened Activity

  /** What the tracker writes: the running session under `'activeTimer'`
      (script.js:52-55) and the activity log under `'timeTrackerActivities'`
      (script.js:171). */
  datatype StoreValue =
    | ActiveTimerEntry(activity: string, startTime: int)
    | ActivityList(records: seq<Record>)

  /** `localStorage`: a string-keyed map shared with whatever else the page stores. */
  type Store = map<string, StoreValue>

  const ActiveTimerKey: string := "activeTimer"
  const ActivitiesKey: string := "timeTrackerActivities"

  /** Each of the tracker's two keys holds the kind of value the tracker writes there. */
  predicate WellFormed(store: Store) {
    && (ActiveTimerKey in store ==> store[ActiveTimerKey].ActiveTimerEntry?)
    && (ActivitiesKey in store ==> store[ActivitiesKey].ActivityList?)
  }

  /** The records, in order, whose start falls on calendar day `today`; `dayOf`
      maps an instant to its local calendar day (what `toDateString` compares). */
  function OnDay(rs: seq<Record>, today: int, dayOf: int -> int): (r: seq<Record>)
    ensures |r| <= |rs|
  {
    if rs == [] then []
    else (if dayOf(rs[0].startTime) == today then [rs[0]] else []) + OnDay(rs[1..], today, dayOf)
  }

  /** The filter keeps exactly the records that started on `today`, each as many
      times as it was logged. */
  lemma {:induction false} OnDayContents(rs: seq<Record>, today: int, dayOf: int -> int)
    ensures var r := OnDay(rs, today, dayOf);
      && (forall x :: x in r <==> x in rs && dayOf(x.startTime) == today)
      && (forall x :: multiset(r)[x] == if dayOf(x.startTime) == today then multiset(rs)[x] else 0)
  {
    if rs != [] {
      assert rs == [rs[0]] + rs[1..];
      OnDayContents(rs[1..], today, dayOf);
    }
  }

  /** `loadActivities()` at instant `now`: the stored records that started on
      `now`'s calendar day, or nothing when no log is stored. */
  function LoadActivities(store: Store, now: int, dayOf: int -> int): (r: seq<Record>)
    requires WellFormed(store)
    ensures ActivitiesKey !in store ==> r == []
    ensures ActivitiesKey in store ==> r == OnDay(store[ActivitiesKey].records, dayOf(now), dayOf)
    ensures forall x :: x in r ==> dayOf(x.startTime) == dayOf(now)
  {
    if ActivitiesKey in store then
      OnDayContents(store[ActivitiesKey].records, dayOf(now), dayOf);
      OnDay(store[ActivitiesKey].records, dayOf(now), dayOf)
    else []
  }

  /** Filtering a concatenation filters each part, keeping their order. */
  lemma {:induction false} OnDayAppend(a: seq<Record>, b: seq<Record>, today: int, dayOf: int -> int)
    ensures OnDay(a + b, today, dayOf) == OnDay(a, today, dayOf) + OnDay(b, today, dayOf)
  {
    if a == [] {
      assert a + b == b;
    } else {
      var head := if dayOf(a[0].startTime) == today then [a[0]] else [];
      assert (a + b)[0] == a[0] && (a + b)[1..] == a[1..] + b;
      OnDayAppend(a[1..], b, today, dayOf);
      calc {
        OnDay(a + b, today, dayOf);
        head + OnDay(a[1..] + b, today, dayOf);
        head + (OnDay(a[1..], today, dayOf) + OnDay(b, today, dayOf));
        (head + OnDay(a[1..], today, dayOf)) + OnDay(b, today, dayOf);
      }
    }
  }

  /** A log whose records all started on `today` passes the filter unchanged. */
  lemma {:induction false} OnDayKeepsToday(rs: seq<Record>, today: int, dayOf: int -> int)
    requires forall k :: 0 <= k < |rs| ==> dayOf(rs[k].startTime) == today
    ensures OnDay(rs, today, dayOf) == rs
  {
    if rs != [] {
      OnDayKeepsToday(rs[1..], today, dayOf);
    }
  }

  /** Loading twice on the same day gives what loading once gave. */
  lemma OnDayIdempotent(rs: seq<Record>, today: int, dayOf: int -> int)
    ensures OnDay(OnDay(rs, today, dayOf), today, dayOf) == OnDay(rs, today, dayOf)
  {
    var r := OnDay(rs, today, dayOf);
    OnDayContents(rs, today, dayOf);
    assert forall k :: 0 <= k < |r| ==> r[k] in r;
    OnDayKeepsToday(r, today, dayOf);
  }

  /** A record saved at the end of a log of today's records is there, last, when
      the log is loaded again on the day the record started. */
  lemma SavedRecordReloads(store: Store, log: seq<Record>, rec: Record, now: int, dayOf: int -> int)
    requires WellFormed(store) && ActivitiesKey in store
    requires store[ActivitiesKey] == ActivityList(log + [rec])
    requires forall k :: 0 <= k < |log| ==> dayOf(log[k].startTime) == dayOf(now)
    requires dayOf(rec.startTime) == dayOf(now)
    ensures LoadActivities(store, now, dayOf) == log + [rec]
  {
    OnDayAppend(log, [rec], dayOf(now), dayOf);
    OnDayKeepsToday(log, dayOf(now), dayOf);
  }

  /** A log saved empty loads as empty, whatever the day. */
  lemma ClearedLogLoadsEmpty(store: Store, now: int, dayOf: int -> int)
    requires WellFormed(store)
    ensures LoadActivities(store[ActivitiesKey := ActivityList([])], now, dayOf) == []
  {
  }
}
