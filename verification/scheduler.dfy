/**
 * The state of the App component (App.js:33-253) and the handlers that
 * change it, with `now` passed in where the source reads `Date.now()`.
 * The key-value store is two fields: the event list and the settings
 * record last written (None when nothing readable is stored).
 * The save-on-change effect (App.js:66-70) runs after every handler that
 * sets the events; Valid() is the invariant it keeps.
 */
module Scheduler {
  import opened Wrappers
  import opened Ledger
  import opened Debounce
  import opened SettingsStore

  class Scheduler {
    var events: seq<Event>
    var lastReportTime: Option<int>
    var debounceTimeLeft: nat
    var reminderHours: int
    var debounceMinutes: int
    /** The store under 'murder-poops-events'. */
    var storedEvents: Option<seq<Event>>
    /** The store under 'murder-poops-settings'. */
    var storedSettings: Option<SavedSettings>
    /** Calls of showReminder. */
    var reminders: nat
    /** Calls of playChime. */
    var chimes: nat
    /** showBeetAlert. */
    var alertVisible: bool

    /** A non-empty event list is always the one in the store. */
    ghost predicate Valid()
      reads this
    {
      |events| > 0 ==> storedEvents == Some(events)
    }

    function CurrentSettings(): Settings
      reads this
    {
      Settings(reminderHours, debounceMinutes)
    }

    function Cooldown(): Countdown
      reads this
    {
      Countdown(lastReportTime, debounceTimeLeft)
    }

    /** The first render, over whatever the store already holds. */
    constructor (savedEvents: Option<seq<Event>>, savedSettings: Option<SavedSettings>)
      ensures Valid()
      ensures events == [] && lastReportTime == None && debounceTimeLeft == 0
      ensures CurrentSettings() == Defaults
      ensures storedEvents == savedEvents && storedSettings == savedSettings
      ensures reminders == 0 && chimes == 0 && !alertVisible
    {
      events, lastReportTime, debounceTimeLeft := [], None, 0;
      reminderHours, debounceMinutes := Defaults.reminderHours, Defaults.debounceMinutes;
      storedEvents, storedSettings := savedEvents, savedSettings;
      reminders, chimes, alertVisible := 0, 0, false;
    }

    /** canReportNewBeet. */
    method CanReportNow() returns (enabled: bool)
      ensures enabled == CanReport(lastReportTime, debounceTimeLeft, debounceMinutes)
    {
      enabled := lastReportTime.None? || debounceTimeLeft == 0 || debounceMinutes == 0;
    }

    /** The save-on-change effect: the event list is written when non-empty. */
    method PersistEvents()
      modifies this`storedEvents
      ensures Valid()
      ensures storedEvents == if |events| > 0 then Some(events) else old(storedEvents)
    {
      if |events| > 0 {
        storedEvents := Some(events);
      }
    }

    /** scheduleMurderPoop: all or nothing. A rejected report changes nothing;
        an accepted one appends exactly one event after the others and
        records `now` as the last report. */
    method Report(now: int) returns (accepted: bool)
      requires Valid()
      modifies this
      ensures Valid()
      ensures accepted == Accepts(old(lastReportTime), debounceMinutes, now)
      ensures !accepted ==>
        events == old(events) && lastReportTime == old(lastReportTime) && storedEvents == old(storedEvents)
      ensures accepted ==>
        events == old(events) + [NewEvent(now, reminderHours)] &&
        lastReportTime == Some(now) && storedEvents == Some(events)
      ensures debounceTimeLeft == old(debounceTimeLeft) && CurrentSettings() == old(CurrentSettings())
      ensures storedSettings == old(storedSettings)
      ensures reminders == old(reminders) && chimes == old(chimes) && alertVisible == old(alertVisible)
    {
      if lastReportTime.Some? && debounceMinutes > 0 {
        var timeSinceLastReport := now - lastReportTime.value;
        if timeSinceLastReport < debounceMinutes * MsPerMinute {
          return false;
        }
      }
      events := events + [NewEvent(now, reminderHours)];
      lastReportTime := Some(now);
      PersistEvents();
      accepted := true;
    }

    /** showReminder: raise the alert and play the chime once. */
    method ShowReminder()
      modifies this`reminders, this`chimes, this`alertVisible
      ensures reminders == old(reminders) + 1 && chimes == old(chimes) + 1 && alertVisible
    {
      reminders := reminders + 1;
      chimes := chimes + 1;
      alertVisible := true;
    }

    /** One run of the per-second interval at `now`: the event list becomes
        its refreshed, expiry-filtered copy; one reminder is raised for each
        event that had time left and has none now; the cooldown counts down. */
    method Tick(now: int)
      requires Valid()
      modifies this
      ensures Valid()
      ensures events == Advance(old(events), now)
      ensures reminders == old(reminders) + ExpiringCount(old(events), now)
      ensures chimes == old(chimes) + ExpiringCount(old(events), now)
      ensures alertVisible == (old(alertVisible) || ExpiringCount(old(events), now) > 0)
      ensures Cooldown() == CountDown(old(Cooldown()), debounceMinutes, now)
      ensures storedEvents == if |events| > 0 then Some(events) else old(storedEvents)
      ensures CurrentSettings() == old(CurrentSettings()) && storedSettings == old(storedSettings)
    {
      var prevEvents := events;
      var updatedEvents := Advance(prevEvents, now);
      var i := 0;
      while i < |prevEvents|
        invariant 0 <= i <= |prevEvents|
        invariant reminders == old(reminders) + ExpiringCount(prevEvents[..i], now)
        invariant chimes == old(chimes) + ExpiringCount(prevEvents[..i], now)
        invariant alertVisible == (old(alertVisible) || ExpiringCount(prevEvents[..i], now) > 0)
        invariant events == prevEvents && lastReportTime == old(lastReportTime)
        invariant debounceTimeLeft == old(debounceTimeLeft) && storedEvents == old(storedEvents)
        invariant CurrentSettings() == old(CurrentSettings()) && storedSettings == old(storedSettings)
      {
        var event := prevEvents[i];
        if event.timeLeft > 0 && Remaining(event, now) == 0 {
          ShowReminder();
        }
        assert prevEvents[..i + 1] == prevEvents[..i] + [event];
        ExpiringCountAppend(prevEvents[..i], [event], now);
        i := i + 1;
      }
      assert prevEvents[..i] == prevEvents;
      events := updatedEvents;
      PersistEvents();

      if lastReportTime.Some? {
        var remaining := RemainingMs(lastReportTime.value, debounceMinutes, now);
        debounceTimeLeft := CeilSeconds(remaining);
        if remaining == 0 {
          lastReportTime := None;
        }
      }
    }

    /** loadSettings. */
    method LoadSettings()
      modifies this`reminderHours, this`debounceMinutes
      ensures CurrentSettings() == Load(old(CurrentSettings()), storedSettings)
    {
      var saved := storedSettings;
      if saved.Some? {
        if Truthy(saved.value.reminderHours) {
          reminderHours := saved.value.reminderHours.value;
        }
        if Truthy(saved.value.debounceMinutes) {
          debounceMinutes := saved.value.debounceMinutes.value;
        }
      }
    }

    /** saveSettings: both settings and the stored record are replaced when
        the hours are positive and the minutes non-negative; otherwise
        nothing changes. */
    method SaveSettings(hours: Option<int>, minutes: Option<int>) returns (saved: bool)
      modifies this`reminderHours, this`debounceMinutes, this`storedSettings
      ensures saved == Validate(hours, minutes).Some?
      ensures saved ==>
        CurrentSettings() == Validate(hours, minutes).value && storedSettings == Some(Record(CurrentSettings()))
      ensures !saved ==> CurrentSettings() == old(CurrentSettings()) && storedSettings == old(storedSettings)
    {
      saved := hours.Some? && hours.value > 0 && minutes.Some? && minutes.value >= 0;
      if saved {
        reminderHours := hours.value;
        debounceMinutes := minutes.value;
        storedSettings := Some(SavedSettings(Some(reminderHours), Some(debounceMinutes)));
      }
    }

    /** loadSavedEvents with the cooldown, in minutes, that it compares
        against. Without a stored list nothing changes; otherwise the list
        becomes the stored events still due after `now`, in order, and the
        cooldown is re-armed from the newest of them. */
    method Restore(now: int, cooldownMinutes: int)
      requires Valid()
      modifies this`events, this`lastReportTime, this`storedEvents
      ensures Valid()
      ensures old(storedEvents).None? ==>
        events == old(events) && lastReportTime == old(lastReportTime) && storedEvents == old(storedEvents)
      ensures old(storedEvents).Some? ==>
        events == Active(old(storedEvents).value, now) &&
        lastReportTime == Rearm(old(lastReportTime), events, now, cooldownMinutes) &&
        storedEvents == if |events| > 0 then Some(events) else old(storedEvents)
    {
      var saved := storedEvents;
      if saved.Some? {
        var activeEvents := Active(saved.value, now);
        events := activeEvents;
        if |activeEvents| > 0 {
          var mostRecent := LatestReport(activeEvents);
          var timeSince := now - mostRecent;
          if timeSince < cooldownMinutes * MsPerMinute {
            lastReportTime := Some(mostRecent);
          }
        }
        PersistEvents();
      }
    }

    /** initializeApp: settings first, then the events. loadSavedEvents still
        sees the cooldown of the first render, not the one just loaded. */
    method Startup(now: int)
      requires Valid()
      modifies this`reminderHours, this`debounceMinutes, this`events, this`lastReportTime, this`storedEvents
      ensures Valid()
      ensures CurrentSettings() == Load(old(CurrentSettings()), storedSettings)
      ensures old(storedEvents).Some? ==>
        events == Active(old(storedEvents).value, now) &&
        lastReportTime == Rearm(old(lastReportTime), events, now, old(debounceMinutes))
      ensures old(storedEvents).None? ==> events == old(events) && lastReportTime == old(lastReportTime)
      ensures storedEvents == if old(storedEvents).Some? && |events| > 0 then Some(events) else old(storedEvents)
    {
      var firstRenderCooldown := debounceMinutes;
      LoadSettings();
      Restore(now, firstRenderCooldown);
    }

    /** The "Accelerate All Timers" handler, whose button is shown only while
        there are events: the list and the recorded report are cleared, an
        empty list is written, and one alert and one chime are raised however
        many events there were. */
    method AccelerateAll()
      requires |events| > 0
      modifies this`events, this`lastReportTime, this`storedEvents, this`chimes, this`alertVisible
      ensures Valid()
      ensures events == [] && lastReportTime == None && storedEvents == Some([])
      ensures alertVisible && chimes == old(chimes) + 1
    {
      events := [];
      lastReportTime := None;
      storedEvents := Some([]);
      alertVisible := true;
      chimes := chimes + 1;
    }
  }

  /** A client of the contracts: a report, a rejected repeat, the expiry
      tick and a second tick at the same instant. */
  method ReportThenExpire()
  {
    var app := new Scheduler(None, None);
    ghost var e := NewEvent(1000, 10);
    var ok := app.Report(1000);
    assert ok && app.events == [e];
    var again := app.Report(601000);
    assert !again && app.events == [e];
    assert app.lastReportTime == Some(1000) && app.debounceMinutes == 30;
    FreshEventFiresOnTime(1000, 10, 36001000);
    app.Tick(36001000);
    assert app.lastReportTime == None;
    assert app.events == [] && app.reminders == 1;
    assert app.storedEvents == Some([e]);
    NoSecondFire([e], 36001000);
    app.Tick(36001000);
    assert app.reminders == 1;
  }
}
