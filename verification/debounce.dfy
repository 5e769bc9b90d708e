/**
 * The cooldown between two accepted reports: the check at the head of
 * scheduleMurderPoop (App.js:219-227), the button gate canReportNewBeet
 * (App.js:253), the per-second countdown of the tick (App.js:97-106) and
 * the re-arming of the cooldown at startup (App.js:157-163).
 */
module Debounce {
  import opened Wrappers
  import Ledger

  const MsPerMinute := 60000

  function CooldownMs(minutes: int): int {
    minutes * MsPerMinute
  }

  /** scheduleMurderPoop goes ahead unless a report is recorded, the
      cooldown is positive and it has not yet elapsed since that report. */
  predicate Accepts(last: Option<int>, minutes: int, now: int) {
    !(last.Some? && minutes > 0 && now - last.value < CooldownMs(minutes))
  }

  /** canReportNewBeet: the button is enabled when no report is recorded,
      the displayed countdown is zero, or the cooldown is switched off. */
  predicate CanReport(last: Option<int>, secondsLeft: nat, minutes: int) {
    last.None? || secondsLeft == 0 || minutes == 0
  }

  /** `Math.max(0, debounceMs - timeSinceLastReport)`. */
  function RemainingMs(last: int, minutes: int, now: int): (r: nat)
    ensures r == 0 <==> now - last >= CooldownMs(minutes)
    ensures r > 0 ==> last + CooldownMs(minutes) == now + r
  {
    var left := CooldownMs(minutes) - (now - last);
    if left > 0 then left else 0
  }

  /** `Math.ceil(ms / 1000)`: the fewest whole seconds covering `ms`. */
  function CeilSeconds(ms: nat): (r: nat)
    ensures r * 1000 >= ms
    ensures r > 0 ==> (r - 1) * 1000 < ms
  {
    (ms + 999) / 1000
  }

  /** The cooldown state the tick updates. */
  datatype Countdown = Countdown(lastReportTime: Option<int>, secondsLeft: nat)

  /** The debounce half of one tick at `now`. */
  function CountDown(c: Countdown, minutes: int, now: int): (r: Countdown)
    ensures c.lastReportTime.None? ==> r == c
    ensures r.lastReportTime.Some? ==> r.lastReportTime == c.lastReportTime && r.secondsLeft > 0
    ensures c.lastReportTime.Some? ==>
      (r.lastReportTime.None? <==> now - c.lastReportTime.value >= CooldownMs(minutes))
    ensures c.lastReportTime.Some? && r.lastReportTime.None? ==> r.secondsLeft == 0
    ensures c.lastReportTime.Some? ==>
      r.secondsLeft * 1000 >= c.lastReportTime.value + CooldownMs(minutes) - now
    ensures c.lastReportTime.Some? && r.secondsLeft > 0 ==>
      (r.secondsLeft - 1) * 1000 < c.lastReportTime.value + CooldownMs(minutes) - now
  {
    match c.lastReportTime
    case None => c
    case Some(last) =>
      var remaining := RemainingMs(last, minutes, now);
      Countdown(if remaining == 0 then None else c.lastReportTime, CeilSeconds(remaining))
  }

  /** Clearing a cooldown that has run out never changes whether a report
      at the same instant would be accepted. */
  lemma CountDownKeepsDecision(c: Countdown, minutes: int, now: int)
    ensures Accepts(CountDown(c, minutes, now).lastReportTime, minutes, now) ==
      Accepts(c.lastReportTime, minutes, now)
  {
  }

  /** Right after a tick, and as long as the clock has not gone back before
      the recorded report, the button is enabled exactly when pressing it
      would be accepted. */
  lemma GateMatchesReport(c: Countdown, minutes: int, now: int)
    requires c.lastReportTime.Some? ==> now >= c.lastReportTime.value
    ensures var r := CountDown(c, minutes, now);
      CanReport(r.lastReportTime, r.secondsLeft, minutes) <==> Accepts(r.lastReportTime, minutes, now)
  {
  }

  /** The cooldown loadSavedEvents re-arms: the newest report among the
      surviving events, when it lies within `minutes` of `now`; otherwise the
      recorded report is left as it was. */
  function Rearm(current: Option<int>, survivors: seq<Ledger.Event>, now: int, minutes: int): (r: Option<int>)
    ensures |survivors| > 0 && now - Ledger.LatestReport(survivors) < CooldownMs(minutes) ==>
      r == Some(Ledger.LatestReport(survivors))
    ensures !(|survivors| > 0 && now - Ledger.LatestReport(survivors) < CooldownMs(minutes)) ==>
      r == current
    ensures r != current ==> forall e :: e in survivors ==> e.reportTime <= r.value
  {
    if |survivors| > 0 && now - Ledger.LatestReport(survivors) < CooldownMs(minutes) then
      Some(Ledger.LatestReport(survivors))
    else
      current
  }

  /** A cooldown re-armed at startup rejects reports until it has run out
      and accepts them from then on. */
  lemma RearmedCooldown(current: Option<int>, survivors: seq<Ledger.Event>, now: int, minutes: int, t: int)
    requires minutes > 0
    requires Rearm(current, survivors, now, minutes) != current
    ensures var last := Rearm(current, survivors, now, minutes).value;
      Accepts(Some(last), minutes, t) <==> t >= last + CooldownMs(minutes)
  {
  }

  /** The cooldown scenario with a 30-minute cooldown: with nothing recorded
      a report at `t0` is accepted; it then rejects one 15 minutes later,
      with 15 minutes still to go, and admits one at 30m01s; a cooldown of 0
      admits every report. */
  lemma ThirtyMinuteScenario(t0: int)
    requires t0 > 0
    ensures Accepts(None, 30, t0)
    ensures !Accepts(Some(t0), 30, t0 + 900000)
    ensures RemainingMs(t0, 30, t0 + 900000) == 900000
    ensures Accepts(Some(t0), 30, t0 + 1801000)
    ensures forall t :: Accepts(Some(t0), 0, t)
  {
  }
}
