# Murder Poops reminder scheduler, modelled in Dafny

The app is a single React Native component (`App.js`). The user presses
"I ate beets". The component then schedules a reminder a configurable number
of hours later (10 by default). It refuses a new report within a cooldown
(30 minutes by default) of the previous accepted one. Once a second it
counts every reminder down, drops the ones that have run out and raises an
alert for each of them. At startup it restores the reminders and the settings
from a key-value store. "Accelerate All Timers" clears everything at once.

The model lifts that logic out of the component. Times are integer epoch
milliseconds, and `now` is a parameter wherever the source calls
`Date.now()`.

- `format.dfy` (module `Format`): `formatTime`, the hours/minutes/seconds
  display. It uses JavaScript's `Math.floor` and truncating `%`, and
  renders numbers as decimal text. `ParseClock` reads such a text back
  into the hours, minutes and seconds it shows; it is the reference
  against which the display is proved exact, field by field.
- `settings.dfy` (module `SettingsStore`): the two settings, the
  all-or-nothing check of `saveSettings`, and `loadSettings`, which replaces
  each stored field on its own when it is truthy.
- `ledger.dfy` (module `Ledger`): the reminder record and the pure list
  transforms. These are the tick's map-then-filter, the number of reminders
  a tick raises, the startup expiry filter and the newest report time.
- `debounce.dfy` (module `Debounce`): the report check of
  `scheduleMurderPoop`, the button gate `canReportNewBeet`, the tick's
  cooldown countdown and the cooldown re-armed at startup.
- `scheduler.dfy` (module `Scheduler`): class `Scheduler`, which holds the
  component's state, the two stored records and counters for the alert
  side effects. Its methods are the handlers. Its invariant `Valid()` is
  the save-on-change rule: a non-empty event list is always the stored one.
  `ReportThenExpire` is a small client that uses only the contracts.
- `wrappers.dfy` (module `Wrappers`): `Option`, standing for JavaScript's
  `null` and missing values.

Behaviour of the code that the model keeps, where it differs from what a
reader might expect:

- `loadSavedEvents` compares against the cooldown of the first render
  (30 minutes), not the cooldown just loaded. `Restore` takes the
  cooldown as a parameter, and `Startup` passes the first render's value.
- `loadSettings` ignores a stored field equal to 0, because 0 is falsy. A
  saved cooldown of 0 ("0 to disable cooldown") is therefore not restored.
  `LoadAfterSave` states this.
- At startup the restored events keep the `timeLeft` they were stored
  with; the next tick recomputes it.
- "Accelerate All Timers" does not raise one reminder per event. It
  clears the list and the recorded report, writes an empty list, shows the
  alert once and plays the chime once. The cooldown countdown
  (`debounceTimeLeft`) is left as it was.
- The fire test at App.js:87 includes `!updatedEvents.includes(event)`.
  This is always true, because `updatedEvents` holds fresh copies. A
  reminder is therefore raised exactly for an event whose previous
  `timeLeft` was positive and whose alert time has come.
- The save-on-change effect writes only a non-empty list. A tick that
  expires the last event therefore leaves the old list in the store.
  `StaleStoreRestoresEmpty` shows that restoring that list later yields
  nothing.
- `loadSettings` accepts any truthy stored delay, including a negative
  one. An event scheduled with a delay that is not positive starts with
  no time left and never raises a reminder (`SilentWithoutDelay`). The
  exact-once accounting of `FiresAddUp` and `TickPartition` therefore
  assumes events with time left, which every report with a positive delay
  and every tick keep (`ReportKeepsTimeLeft`, `AdvancedTimeLeft`).

## Model

| member | source | states |
|---|---|---|
| `Format.JsRem` | App.js:203-204 | JavaScript's `%` for a positive divisor: the remainder has the sign of the dividend, is smaller than the divisor in magnitude, and differs from the dividend by a multiple of the divisor |
| `Format.Split` | App.js:201-204 | for a non-negative duration, hours·3600 + minutes·60 + seconds equals floor(ms/1000), with minutes and seconds below 60; for a negative one, hours < 0, minutes ≤ 0, and the seconds lie in (-60, 0] and are congruent to floor(ms/1000) modulo 60 |
| `Format.NatToString` | App.js:207 | the decimal rendering of a number is non-empty, consists of digits only and has no leading zero |
| `Format.IntToStringRoundTrip` | App.js:207 | reading the rendering of any integer, a '-' and digits when negative, digits alone otherwise, gives the integer back |
| `Format.DecimalOfNatToString` | App.js:207 | reading the decimal rendering of n gives back n |
| `Format.FormatTime` | App.js:200-213 | the display always ends in a seconds field; what it shows is stated by `FormatTimeRoundTrip` and `FormatTimeNegative` |
| `Format.Render` | App.js:206-212 | each of the three template literals ends in a seconds field; which fields appear and what they read back as are stated by `RenderShape` and `RenderRoundTrip` |
| `Format.FormatTimeRoundTrip` | App.js:200-213 | the text formatTime shows for a non-negative duration reads back as exactly the hours, minutes and seconds of its split, which recompose floor(ms/1000) |
| `Format.RenderRoundTrip` | App.js:206-212 | each of the three shapes "h m s", "m s" and "s" reads back as the very clock it was rendered from, field by field, absent fields reading as 0 |
| `Format.RenderShape` | App.js:206-212 | for a non-negative clock, an hours field is shown exactly when hours > 0, a minutes field exactly when hours > 0 or minutes > 0, and a seconds field always |
| `Format.FormatTimeNegative` | App.js:200-213 | a negative duration is shown as a seconds field only, with a value in (-60, 0], and the text before the final 's' reads back as that value |
| `SettingsStore.Load` | App.js:112-129 | without a stored record nothing changes; each setting takes its stored value exactly when that value is present and non-zero, negative values included, and keeps its current value otherwise; `LoadAfterSave`, `LoadFieldwise` and `LoadIdempotent` state the rest |
| `SettingsStore.LoadAfterSave` | App.js:115-124 | loading a record written by a valid save restores the hours, and the cooldown too unless it is 0, which leaves the current cooldown |
| `SettingsStore.LoadFieldwise` | App.js:117-124 | what is stored for one setting never affects the other |
| `SettingsStore.LoadIdempotent` | App.js:115-124 | loading the same record twice equals loading it once |
| `Ledger.NewEvent` | App.js:230-236 | the new event's id is "beet-" followed by now, and reads back as now; its report time is now, its alert time is now plus the delay, its timeLeft is that delay, it keeps the hours used, and it lies in the future when the delay is positive |
| `Ledger.Remaining` | App.js:80 | the remaining time is 0 exactly when the alert time has come, and otherwise is the distance to it |
| `Ledger.Active` | App.js:153 | the startup filter keeps exactly the events whose alert time is after now, and never more events than it was given |
| `Ledger.LatestReport` | App.js:158 | the newest report time is one of the events' report times and at least all of them |
| `Ledger.ActiveAppend` | App.js:153 | the startup filter keeps the survivors in their original relative order |
| `Ledger.Advance` | App.js:79-82 | the tick's map-then-filter; `AdvanceKeepsDue`, `AdvanceAppend`, `AdvancedTimeLeft` and `AdvanceIdempotent` state what it keeps |
| `Ledger.ExpiringCount` | App.js:85-91 | the tick never raises more reminders than there are events; `FiresAddUp`, `TickPartition` and `NoSecondFire` state which ones it raises |
| `Ledger.AdvanceKeepsDue` | App.js:79-82 | a tick keeps exactly the events due after now, in order, with timeLeft recomputed and every other field unchanged |
| `Ledger.AdvanceAppend` | App.js:79-82 | a tick treats each event on its own, so it distributes over concatenation |
| `Ledger.AdvancedTimeLeft` | App.js:80-82 | every event a tick keeps has timeLeft = alertTime - now > 0 |
| `Ledger.AdvanceIdempotent` | App.js:79-82 | a second tick at the same instant leaves the list as the first left it |
| `Ledger.NoSecondFire` | App.js:85-91 | a second tick at the same instant raises no reminder |
| `Ledger.FiresAddUp` | App.js:85-91 | for events with time left, the reminders of a tick at t1 plus those of a later tick at t2 equal those of one tick at t2: each expiry is reported exactly once |
| `Ledger.TickPartition` | App.js:79-91 | for events with time left, each one is either kept or raises exactly one reminder |
| `Ledger.ReportKeepsTimeLeft` | App.js:229-238 | adding a report with a positive delay to events that all have time left gives events that all have time left |
| `Ledger.SilentWithoutDelay` | App.js:85-91 | an event scheduled with a delay that is not positive never raises a reminder |
| `Ledger.AllDueKept` | App.js:153 | restoring a list whose events are all still due keeps it whole |
| `Ledger.FreshEventSurvivesTick` | App.js:229-238 | an event reported at now with a positive delay is kept, unchanged and last, by a tick at the same now |
| `Ledger.FreshEventFiresOnTime` | App.js:80-89 | a fresh event is kept by every tick before its alert time and raises exactly one reminder on the first tick at or after it |
| `Ledger.StaleStoreRestoresEmpty` | App.js:66-70 | when a tick empties the list, the list left in the store restores to nothing at any later time |
| `Debounce.Accepts` | App.js:219-227 | the report check; `RearmedCooldown`, `CountDownKeepsDecision`, `GateMatchesReport` and `ThirtyMinuteScenario` state when it accepts |
| `Debounce.CanReport` | App.js:253 | the button gate; `GateMatchesReport` states that right after a tick it agrees with `Accepts` |
| `Debounce.RemainingMs` | App.js:98-100 | the remaining cooldown is 0 exactly when the cooldown has elapsed since the last report, and otherwise is the time until it elapses |
| `Debounce.CeilSeconds` | App.js:101 | the displayed countdown is the fewest whole seconds that cover the remaining milliseconds |
| `Debounce.CountDown` | App.js:97-106 | without a recorded report nothing changes; with one, it is cleared exactly when the cooldown has elapsed, and then the countdown is 0; a kept report shows a positive countdown, which is the least number of whole seconds covering the remaining cooldown |
| `Debounce.CountDownKeepsDecision` | App.js:97-106 | the countdown never changes whether a report at the same instant is accepted |
| `Debounce.GateMatchesReport` | App.js:253 | right after a tick, unless the clock went back before the last report, the button is enabled exactly when a report would be accepted |
| `Debounce.Rearm` | App.js:157-163 | the recorded report becomes the newest survivor's report time exactly when there is a survivor and that time lies within the cooldown of now; otherwise the recorded report is kept |
| `Debounce.RearmedCooldown` | App.js:157-163 | a cooldown re-armed at startup rejects reports until it has elapsed and accepts them from then on |
| `Debounce.ThirtyMinuteScenario` | App.js:219-227 | with a 30-minute cooldown after a report at any positive time t0, a report 15 minutes later is rejected with 15 minutes remaining and one 30m01s later is accepted; a cooldown of 0 accepts every report |
| `Scheduler.Scheduler.constructor` | App.js:34-43 | the first render: no events, no recorded report, countdown 0, default settings, nothing raised |
| `Scheduler.Scheduler.CanReportNow` | App.js:253 | the button is enabled when no report is recorded, the countdown is 0 or the cooldown is 0 |
| `Scheduler.Scheduler.PersistEvents` | App.js:66-70 | the event list is written to the store when it is non-empty and not otherwise |
| `Scheduler.Scheduler.Report` | App.js:215-240 | a rejected report changes nothing; an accepted one appends exactly one new event after the others, records now and stores the list; acceptance is the cooldown check |
| `Scheduler.Scheduler.ShowReminder` | App.js:187-198 | one reminder raises the alert and plays the chime once |
| `Scheduler.Scheduler.Tick` | App.js:73-107 | the list becomes its tick transform, one reminder is raised per event whose time ran out, the cooldown counts down, the non-empty list is stored, settings are untouched |
| `Scheduler.Scheduler.LoadSettings` | App.js:112-129 | the settings become the field-by-field load of the stored record |
| `Scheduler.Scheduler.SaveSettings` | App.js:131-144 | both settings and the stored record are replaced when the input is valid, and nothing changes otherwise |
| `Scheduler.Scheduler.Restore` | App.js:146-168 | without a stored list nothing changes; otherwise the list becomes the stored events still due, and the cooldown is re-armed from the newest survivor |
| `Scheduler.Scheduler.Startup` | App.js:56-63 | settings are loaded first; the events are then restored against the first render's cooldown; the store is rewritten only with a non-empty restored list |
| `Scheduler.Scheduler.AccelerateAll` | App.js:308-317 | offered only while there are events; the list and the recorded report are cleared, an empty list is stored, and one alert and one chime are raised whatever the number of events |

## Left out

- The `Storage` wrapper (App.js:8-31) is left out: the platform branch, AsyncStorage and `localStorage`. The store is modelled as two fields. A failed read is the same as an absent record, and a failed write is swallowed by the source.
- `JSON.parse` and `JSON.stringify` are left out. A stored record is a value, and an unreadable one is `None`.
- `parseFloat` and `isNaN` are left out. The settings inputs are parsed integers, with `None` for NaN. Fractional hours and minutes (for example 0.5 hours) and floating-point arithmetic are not modelled.
- Numbers are unbounded integers, not IEEE doubles.
- A report time of exactly 0 is treated as recorded. In JavaScript, 0 is falsy. This cannot occur with real epoch timestamps.
- The `setInterval`/`clearInterval` lifecycle and the effect dependency arrays are left out. Each call of `Tick` is one run of the interval body.
- A development-mode React runtime may run a state updater twice. The model runs the tick's updater once.
- `loadFonts`, `playChime`'s audio, the browser notification in `showReminder` and `Notification.requestPermission` are foreign side effects. They appear only as the `reminders` and `chimes` counters and the `alertVisible` flag.
- The asynchronous interleaving of `initializeApp` with renders and ticks is not modelled. `Startup` runs its two loads in order.
- The JSX, the styles, the settings dialog's visibility and its text fields, and the alert's "OK" button are presentation. The exception is the button gate, which is `CanReportNow`.
