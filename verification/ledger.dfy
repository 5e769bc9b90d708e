/**
 * The list of scheduled reminders ("beet events") and the pure transforms
 * the component applies to it: the per-second refresh-and-drop of the
 * tick (App.js:79-82), the count of reminders the tick raises
 * (App.js:85-91), the expiry filter of startup (App.js:153) and the
 * newest report time used to re-arm the cooldown (App.js:158).
 * Times are epoch milliseconds.
 */
module Ledger {
  import opened Wrappers
  import Format

  const MsPerHour := 3600000

  /** One scheduled reminder, as the component stores and persists it. */
  datatype Event = Event(id: string, reportTime: int, alertTime: int, timeLeft: int, totalHours: int)

  /** The event scheduleMurderPoop creates at `now` with the current
      reminder delay (App.js:230-236). */
  function NewEvent(now: int, hours: int): (e: Event)
    ensures e.reportTime == now && e.totalHours == hours
    ensures e.alertTime - e.reportTime == e.timeLeft == hours * MsPerHour
    ensures hours > 0 ==> e.alertTime > e.reportTime
    ensures e.id == "beet-" + Format.IntToString(now)
    ensures |e.id| > 5 && e.id[..5] == "beet-" && Format.IntValue(e.id[5..]) == Some(now)
  {
    var id := "beet-" + Format.IntToString(now);
    assert id[5..] == Format.IntToString(now);
    Format.IntToStringRoundTrip(now);
    Event(id, now, now + hours * MsPerHour, hours * MsPerHour, hours)
  }

  /** `Math.max(0, event.alertTime - now)`. */
  function Remaining(e: Event, now: int): (r: nat)
    ensures r == 0 <==> e.alertTime <= now
    ensures r > 0 ==> e.alertTime == now + r
  {
    if e.alertTime - now > 0 then e.alertTime - now else 0
  }

  /** The `map` step of the tick: every event with its timeLeft recomputed. */
  function Refreshed(s: seq<Event>, now: int): (r: seq<Event>)
    ensures |r| == |s|
    ensures forall i :: 0 <= i < |s| ==> r[i] == s[i].(timeLeft := Remaining(s[i], now))
  {
    seq(|s|, i requires 0 <= i < |s| => s[i].(timeLeft := Remaining(s[i], now)))
  }

  /** The `filter` step of the tick: the events whose timeLeft is positive. */
  function Live(s: seq<Event>): seq<Event> {
    if s == [] then []
    else (if s[0].timeLeft > 0 then [s[0]] else []) + Live(s[1..])
  }

  /** The new event list of one tick at `now`. */
  function Advance(s: seq<Event>, now: int): seq<Event> {
    Live(Refreshed(s, now))
  }

  /** The filter of loadSavedEvents: the events still due after `now`. */
  function Active(s: seq<Event>, now: int): (r: seq<Event>)
    ensures |r| <= |s|
    ensures forall e :: e in r <==> e in s && e.alertTime > now
  {
    if s == [] then []
    else (if s[0].alertTime > now then [s[0]] else []) + Active(s[1..], now)
  }

  /** The number of `showReminder()` calls one tick at `now` makes: events
      that had time left and have none now. The `!updatedEvents.includes(event)`
      conjunct of App.js:87 is always true, because updatedEvents holds fresh
      copies, so it is left out. */
  function ExpiringCount(s: seq<Event>, now: int): (n: nat)
    ensures n <= |s|
  {
    if s == [] then 0
    else (if s[0].timeLeft > 0 && Remaining(s[0], now) == 0 then 1 else 0) + ExpiringCount(s[1..], now)
  }

  /** `Math.max(...events.map(e => e.reportTime))`. */
  function LatestReport(s: seq<Event>): (m: int)
    requires |s| > 0
    ensures exists i :: 0 <= i < |s| && s[i].reportTime == m
    ensures forall i :: 0 <= i < |s| ==> s[i].reportTime <= m
  {
    if |s| == 1 then s[0].reportTime
    else
      var rest := LatestReport(s[1..]);
      if s[0].reportTime >= rest then s[0].reportTime else rest
  }

  /** The restore filter distributes over concatenation: it keeps the
      surviving events in their original relative order. */
  lemma {:induction false} ActiveAppend(a: seq<Event>, b: seq<Event>, now: int)
    ensures Active(a + b, now) == Active(a, now) + Active(b, now)
  {
    if a == [] {
      assert a + b == b;
    } else {
      assert (a + b)[0] == a[0] && (a + b)[1..] == a[1..] + b;
      ActiveAppend(a[1..], b, now);
    }
  }

  lemma {:induction false} ExpiringCountAppend(a: seq<Event>, b: seq<Event>, now: int)
    ensures ExpiringCount(a + b, now) == ExpiringCount(a, now) + ExpiringCount(b, now)
  {
    if a == [] {
      assert a + b == b;
    } else {
      assert (a + b)[0] == a[0] && (a + b)[1..] == a[1..] + b;
      ExpiringCountAppend(a[1..], b, now);
    }
  }

  /** A tick keeps exactly the events due after `now`, in order, each with
      `timeLeft` set to `alertTime - now` and every other field unchanged. */
  lemma {:induction false} AdvanceKeepsDue(s: seq<Event>, now: int)
    ensures Advance(s, now) == Refreshed(Active(s, now), now)
  {
    if s != [] {
      AdvanceUnfold(s, now);
      AdvanceKeepsDue(s[1..], now);
      var head := if s[0].alertTime > now then [s[0]] else [];
      assert Active(s, now) == head + Active(s[1..], now);
      RefreshedAppend(head, Active(s[1..], now), now);
    }
  }

  lemma RefreshedAppend(a: seq<Event>, b: seq<Event>, now: int)
    ensures Refreshed(a + b, now) == Refreshed(a, now) + Refreshed(b, now)
  {
  }

  /** Every event a tick keeps has a positive timeLeft measured from `now`. */
  lemma AdvancedTimeLeft(s: seq<Event>, now: int)
    ensures forall e :: e in Advance(s, now) ==> e.timeLeft == e.alertTime - now > 0
  {
    AdvanceKeepsDue(s, now);
  }

  /** A second tick at the same `now` changes nothing. */
  lemma AdvanceIdempotent(s: seq<Event>, now: int)
    ensures Advance(Advance(s, now), now) == Advance(s, now)
  {
    var a := Advance(s, now);
    AdvanceKeepsDue(s, now);
    AdvanceKeepsDue(a, now);
    AllDueKept(Active(s, now), now);
    assert forall e :: e in a ==> e.alertTime > now;
    AllDueKept(a, now);
    forall i | 0 <= i < |a| ensures Refreshed(a, now)[i] == a[i] {
      assert a[i] in a;
    }
  }

  /** A second tick at the same `now` raises no reminder: every event that
      expired has been removed by the first. */
  lemma {:induction false} NoSecondFire(s: seq<Event>, now: int)
    ensures ExpiringCount(Advance(s, now), now) == 0
  {
    AdvanceKeepsDue(s, now);
    NothingExpires(Advance(s, now), now);
  }

  lemma {:induction false} NothingExpires(s: seq<Event>, now: int)
    requires forall e :: e in s ==> e.alertTime > now
    ensures ExpiringCount(s, now) == 0
  {
    if s != [] {
      assert s[0] in s;
      NothingExpires(s[1..], now);
    }
  }

  /** Restoring events that are all still due keeps every one of them. */
  lemma {:induction false} AllDueKept(s: seq<Event>, now: int)
    requires forall e :: e in s ==> e.alertTime > now
    ensures Active(s, now) == s
  {
    if s != [] {
      assert s[0] in s;
      AllDueKept(s[1..], now);
    }
  }

  /** What one tick does to a single event. */
  function Step(e: Event, now: int): seq<Event> {
    if e.alertTime > now then [e.(timeLeft := e.alertTime - now)] else []
  }

  lemma AdvanceUnfold(s: seq<Event>, now: int)
    requires s != []
    ensures Advance(s, now) == Step(s[0], now) + Advance(s[1..], now)
  {
    assert Refreshed(s, now)[1..] == Refreshed(s[1..], now);
  }

  /** A tick treats every event on its own: it distributes over concatenation. */
  lemma {:induction false} AdvanceAppend(a: seq<Event>, b: seq<Event>, now: int)
    ensures Advance(a + b, now) == Advance(a, now) + Advance(b, now)
  {
    if a == [] {
      assert a + b == b;
    } else {
      assert (a + b)[0] == a[0] && (a + b)[1..] == a[1..] + b;
      AdvanceUnfold(a + b, now);
      AdvanceUnfold(a, now);
      AdvanceAppend(a[1..], b, now);
    }
  }

  /** Every expiry is reported exactly once across two ticks: for events
      that all have time left, the reminders of a tick at `t1` plus those of
      a later tick at `t2` are the reminders a single tick at `t2` would raise. */
  lemma {:induction false} FiresAddUp(s: seq<Event>, t1: int, t2: int)
    requires t1 <= t2
    requires forall e :: e in s ==> e.timeLeft > 0
    ensures ExpiringCount(s, t1) + ExpiringCount(Advance(s, t1), t2) == ExpiringCount(s, t2)
  {
    if s != [] {
      assert s[0] in s;
      FiresAddUp(s[1..], t1, t2);
      AdvanceUnfold(s, t1);
      ExpiringCountAppend(Step(s[0], t1), Advance(s[1..], t1), t2);
    }
  }

  /** For events that all have time left, a tick splits them exactly: each
      one is either kept or raises one reminder. */
  lemma {:induction false} TickPartition(s: seq<Event>, now: int)
    requires forall e :: e in s ==> e.timeLeft > 0
    ensures |Advance(s, now)| + ExpiringCount(s, now) == |s|
  {
    if s != [] {
      assert s[0] in s;
      TickPartition(s[1..], now);
      assert Refreshed(s, now)[1..] == Refreshed(s[1..], now);
    }
  }

  /** The requirement of FiresAddUp and TickPartition holds of every list
      built while the reminder delay is positive: a report with a positive
      delay adds an event with time left, and a tick keeps only events with
      time left (AdvancedTimeLeft). */
  lemma ReportKeepsTimeLeft(s: seq<Event>, now: int, hours: int)
    requires forall e :: e in s ==> e.timeLeft > 0
    requires hours > 0
    ensures forall e :: e in s + [NewEvent(now, hours)] ==> e.timeLeft > 0
  {
  }

  /** An event scheduled with a delay that is not positive never raises a
      reminder, at any tick: it starts with no time left. */
  lemma SilentWithoutDelay(now: int, hours: int, t: int)
    requires hours <= 0
    ensures ExpiringCount([NewEvent(now, hours)], t) == 0
  {
  }

  /** A report accepted at `now` with a positive delay is not expired by a
      tick at the same `now`: the tick keeps it, unchanged, at the end. */
  lemma FreshEventSurvivesTick(s: seq<Event>, now: int, hours: int)
    requires hours > 0
    ensures Advance(s + [NewEvent(now, hours)], now) == Advance(s, now) + [NewEvent(now, hours)]
  {
    var e := NewEvent(now, hours);
    AdvanceAppend(s, [e], now);
    AdvanceUnfold([e], now);
    assert [e][1..] == [];
  }

  /** A fresh event is kept by every tick before its alert time and raises
      its one reminder on the first tick at or after it. */
  lemma FreshEventFiresOnTime(now: int, hours: int, t: int)
    requires hours > 0 && t >= now
    ensures var e := NewEvent(now, hours);
      if t < e.alertTime then
        Advance([e], t) == [e.(timeLeft := e.alertTime - t)] && ExpiringCount([e], t) == 0
      else
        Advance([e], t) == [] && ExpiringCount([e], t) == 1
  {
    var e := NewEvent(now, hours);
    AdvanceKeepsDue([e], t);
    assert Active([e], t) == if t < e.alertTime then [e] else [];
  }

  /** The stored list a tick leaves behind when it empties the ledger is
      harmless: restoring it at any later time yields no event. */
  lemma {:induction false} StaleStoreRestoresEmpty(s: seq<Event>, t: int, now: int)
    requires Advance(s, t) == [] && t <= now
    ensures Active(s, now) == []
  {
    AdvanceKeepsDue(s, t);
    assert Active(s, t) == [];
    NoneDue(s, t, now);
  }

  lemma {:induction false} NoneDue(s: seq<Event>, t: int, now: int)
    requires Active(s, t) == [] && t <= now
    ensures Active(s, now) == []
  {
    if s != [] {
      NoneDue(s[1..], t, now);
    }
  }
}
