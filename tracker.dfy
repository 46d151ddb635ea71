/** The `TimeTracker` class (script.js:2-269) without its page wiring: the timer's
    two states, the activity log and the store they are persisted to. */
module Tracker {

  import opened Wrappers
  import opened Activity
  import opened Storage
  import JsText
  import Aggregate

  class TimeTracker {
    /** The running activity's name; `None` stands for `null`. */
    var currentActivity: Option<string>
    /** The running activity's start instant, in milliseconds. */
    var startTime: Option<int>
    /** Today's completed records, in completion order. */
    var activities: seq<Record>
    /** The page's `localStorage`. */
    var store: Store

    /** Both session fields are set or both are null, and the store's
        `'activeTimer'` entry is exactly the session loaded in memory. */
    ghost predicate Valid()
      reads this
    {
      && WellFormed(store)
      && (currentActivity.Some? <==> startTime.Some?)
      && (currentActivity.Some? ==>
            ActiveTimerKey in store
            && store[ActiveTimerKey] == ActiveTimerEntry(currentActivity.value, startTime.value))
      && (currentActivity.None? ==> ActiveTimerKey !in store)
    }

    /** No session is loaded: the name input is enabled and the start button shown. */
    predicate Idle()
      reads this
    {
      currentActivity.None?
    }

    /** What `stopTimer` tests first (script.js:69): a truthy (non-empty) name and a
        start instant. */
    predicate Running()
      reads this
    {
      currentActivity.Some? && currentActivity.value != "" && startTime.Some?
    }

    /** A page load (script.js:3-13): today's records are loaded from the store and
        a session left running by an earlier page is resumed. */
    constructor (persisted: Store, now: int, dayOf: int -> int)
      requires WellFormed(persisted)
      ensures Valid()
      ensures store == persisted
      ensures activities == LoadActivities(persisted, now, dayOf)
      ensures ActiveTimerKey in persisted ==>
        && currentActivity == Some(persisted[ActiveTimerKey].activity)
        && startTime == Some(persisted[ActiveTimerKey].startTime)
      ensures ActiveTimerKey !in persisted ==> Idle()
    {
      currentActivity := None;
      startTime := None;
      activities := LoadActivities(persisted, now, dayOf);
      store := persisted;
      new;
      CheckForActiveTimer();
    }

    /** `startTimer()` with `input` the text of the name field and `now` the clock.
        A name that trims to nothing changes nothing; otherwise the trimmed name
        and `now` become the session, in memory and under `'activeTimer'`. */
    method StartTimer(input: string, now: int)
      requires Valid() && Idle()
      modifies this
      ensures Valid()
      ensures activities == old(activities)
      ensures JsText.Trim(input) == [] ==>
        Idle() && startTime == old(startTime) && store == old(store)
      ensures JsText.Trim(input) != [] ==>
        && currentActivity == Some(JsText.Trim(input))
        && startTime == Some(now)
        && store == old(store)[ActiveTimerKey := ActiveTimerEntry(JsText.Trim(input), now)]
    {
      var activity := JsText.Trim(input);
      if activity == [] {
        return;
      }
      currentActivity := Some(activity);
      startTime := Some(now);
      store := store[ActiveTimerKey := ActiveTimerEntry(currentActivity.value, startTime.value)];
    }

    /** `stopTimer()` at instant `now`. Without a running session it does nothing.
        Otherwise the session becomes a record appended to the log, the log is
        saved, `'activeTimer'` is removed and the tracker is idle again. */
    method StopTimer(now: int)
      requires Valid()
      modifies this
      ensures Valid()
      ensures !old(Running()) ==>
        && currentActivity == old(currentActivity) && startTime == old(startTime)
        && activities == old(activities) && store == old(store)
      ensures old(Running()) ==>
        && activities == old(activities) + [Record(old(currentActivity.value), old(startTime.value), now,
                                                   ElapsedSeconds(old(startTime.value), now))]
        && store == old(store)[ActivitiesKey := ActivityList(activities)] - {ActiveTimerKey}
        && Idle() && startTime.None?
    {
      if currentActivity.None? || currentActivity.value == "" || startTime.None? {
        return;
      }
      var endTime := now;
      var duration := ElapsedSeconds(startTime.value, endTime);
      var activity := Record(currentActivity.value, startTime.value, endTime, duration);
      activities := activities + [activity];
      SaveActivities();
      store := store - {ActiveTimerKey};
      currentActivity := None;
      startTime := None;
    }

    /** `checkForActiveTimer()`: a session found under `'activeTimer'` becomes the
        session in memory; without one nothing changes. */
    method CheckForActiveTimer()
      requires WellFormed(store)
      modifies this
      ensures store == old(store) && activities == old(activities)
      ensures ActiveTimerKey in store ==>
        && currentActivity == Some(store[ActiveTimerKey].activity)
        && startTime == Some(store[ActiveTimerKey].startTime)
      ensures ActiveTimerKey !in store ==>
        currentActivity == old(currentActivity) && startTime == old(startTime)
    {
      if ActiveTimerKey in store {
        var entry := store[ActiveTimerKey];
        currentActivity := Some(entry.activity);
        startTime := Some(entry.startTime);
      }
    }

    /** `saveActivities()`: the whole log replaces the stored one. */
    method SaveActivities()
      requires Valid()
      modifies this`store
      ensures Valid()
      ensures store == old(store)[ActivitiesKey := ActivityList(activities)]
    {
      store := store[ActivitiesKey := ActivityList(activities)];
    }

    /** `clearAll()` once the user has confirmed: the log is emptied and saved
        empty; a running session is left alone. */
    method ClearAll()
      requires Valid()
      modifies this
      ensures Valid()
      ensures activities == []
      ensures store == old(store)[ActivitiesKey := ActivityList([])]
      ensures currentActivity == old(currentActivity) && startTime == old(startTime)
    {
      activities := [];
      SaveActivities();
    }
  }

  /** A page reloaded while a timer runs resumes the same activity from the same
      instant: what `startTimer` persists is what `checkForActiveTimer` restores. */
  method ReloadResumesSession(persisted: Store, input: string, t0: int, t1: int, dayOf: int -> int)
    returns (name: Option<string>, start: Option<int>)
    requires WellFormed(persisted) && ActiveTimerKey !in persisted
    requires JsText.Trim(input) != []
    ensures name == Some(JsText.Trim(input)) && start == Some(t0)
  {
    var page := new TimeTracker(persisted, t0, dayOf);
    page.StartTimer(input, t0);
    var reloaded := new TimeTracker(page.store, t1, dayOf);
    name, start := reloaded.currentActivity, reloaded.startTime;
  }

  /** Start, stop and reload on the same day: the reloaded log is the log the page
      held, ending with the stopped activity, and its total grew by its duration. */
  method ReloadKeepsStoppedActivity(persisted: Store, input: string, t0: int, t1: int, t2: int, dayOf: int -> int)
    returns (log: seq<Record>)
    requires WellFormed(persisted) && ActiveTimerKey !in persisted
    requires JsText.Trim(input) != []
    requires dayOf(t2) == dayOf(t0)
    ensures log == LoadActivities(persisted, t0, dayOf) + [Record(JsText.Trim(input), t0, t1, ElapsedSeconds(t0, t1))]
    ensures Aggregate.Total(log) == Aggregate.Total(LoadActivities(persisted, t0, dayOf)) + ElapsedSeconds(t0, t1)
  {
    var page := new TimeTracker(persisted, t0, dayOf);
    ghost var loaded := page.activities;
    var name := JsText.Trim(input);
    var rec := Record(name, t0, t1, ElapsedSeconds(t0, t1));
    page.StartTimer(input, t0);
    assert page.Running();
    page.StopTimer(t1);
    assert page.activities == loaded + [rec];
    assert page.store[ActivitiesKey] == ActivityList(loaded + [rec]);
    assert forall k :: 0 <= k < |loaded| ==> loaded[k] in loaded;
    SavedRecordReloads(page.store, loaded, rec, t2, dayOf);
    var reloaded := new TimeTracker(page.store, t2, dayOf);
    log := reloaded.activities;
    Aggregate.TotalAppend(loaded, [rec]);
  }

  /** After `clearAll` the log, a reload on any day, and the total are all empty. */
  method ClearThenReload(persisted: Store, t0: int, t1: int, dayOf: int -> int)
    returns (log: seq<Record>, reloaded: seq<Record>, total: int)
    requires WellFormed(persisted)
    ensures log == [] && reloaded == [] && total == 0
  {
    var page := new TimeTracker(persisted, t0, dayOf);
    page.ClearAll();
    log := page.activities;
    var next := new TimeTracker(page.store, t1, dayOf);
    reloaded := next.activities;
    total := Aggregate.Total(page.activities);
  }
}
