/**
 * The two tunable settings of the reminder (App.js:40-41) and the two
 * operations on them: `saveSettings`, an all-or-nothing validated update,
 * and `loadSettings`, which takes each stored field separately and only
 * when JavaScript would call it truthy.
 */
module SettingsStore {
  import opened Wrappers

  /** The active settings: hours until a reminder, minutes of cooldown. */
  datatype Settings = Settings(reminderHours: int, debounceMinutes: int)

  /** The values of the first render, before anything is loaded. */
  const Defaults := Settings(10, 30)

  /** The record kept under the settings key. A field that is missing or
      not a number is None. */
  datatype SavedSettings = SavedSettings(reminderHours: Option<int>, debounceMinutes: Option<int>)

  /** `if (settings.x)`: present and not zero. */
  predicate Truthy(v: Option<int>) {
    v.Some? && v.value != 0
  }

  /** The check in saveSettings. `hours` and `minutes` are the parsed text
      fields, None where parseFloat gives NaN. */
  function Validate(hours: Option<int>, minutes: Option<int>): (r: Option<Settings>)
    ensures r.Some? <==> hours.Some? && hours.value > 0 && minutes.Some? && minutes.value >= 0
    ensures r.Some? ==> r.value.reminderHours == hours.value && r.value.debounceMinutes == minutes.value
  {
    if hours.Some? && hours.value > 0 && minutes.Some? && minutes.value >= 0 then
      Some(Settings(hours.value, minutes.value))
    else
      None
  }

  /** The record saveSettings writes. */
  function Record(s: Settings): SavedSettings {
    SavedSettings(Some(s.reminderHours), Some(s.debounceMinutes))
  }

  /** loadSettings: an absent or unreadable record changes nothing; otherwise
      each truthy field replaces the current one on its own. */
  function Load(current: Settings, saved: Option<SavedSettings>): (r: Settings)
    ensures saved.None? ==> r == current
    ensures r.reminderHours == current.reminderHours ||
      (saved.Some? && saved.value.reminderHours == Some(r.reminderHours) && r.reminderHours != 0)
    ensures r.debounceMinutes == current.debounceMinutes ||
      (saved.Some? && saved.value.debounceMinutes == Some(r.debounceMinutes) && r.debounceMinutes != 0)
    ensures saved.Some? && Truthy(saved.value.reminderHours) ==> r.reminderHours == saved.value.reminderHours.value
    ensures saved.Some? && Truthy(saved.value.debounceMinutes) ==> r.debounceMinutes == saved.value.debounceMinutes.value
  {
    if saved.None? then current
    else
      Settings(
        if Truthy(saved.value.reminderHours) then saved.value.reminderHours.value else current.reminderHours,
        if Truthy(saved.value.debounceMinutes) then saved.value.debounceMinutes.value else current.debounceMinutes)
  }

  /** Saving and then loading restores the saved settings, except that a
      saved cooldown of 0 is falsy and leaves the current cooldown in place. */
  lemma LoadAfterSave(current: Settings, hours: Option<int>, minutes: Option<int>)
    requires Validate(hours, minutes).Some?
    ensures var s := Validate(hours, minutes).value;
      Load(current, Some(Record(s))) ==
        Settings(s.reminderHours, if s.debounceMinutes == 0 then current.debounceMinutes else s.debounceMinutes)
  {
  }

  /** Load treats the two fields independently: what is stored for one
      never affects the other. */
  lemma LoadFieldwise(current: Settings, saved: SavedSettings)
    ensures Load(current, Some(saved)).reminderHours ==
      Load(current, Some(SavedSettings(saved.reminderHours, None))).reminderHours
    ensures Load(current, Some(saved)).debounceMinutes ==
      Load(current, Some(SavedSettings(None, saved.debounceMinutes))).debounceMinutes
  {
  }

  /** Loading the same record twice is the same as loading it once. */
  lemma LoadIdempotent(current: Settings, saved: Option<SavedSettings>)
    ensures Load(Load(current, saved), saved) == Load(current, saved)
  {
  }
}
