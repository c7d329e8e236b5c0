/**
  The scheduled page reloader hook: from a list of wall-clock times it
  picks the next instant at which the page should reload (the earliest of
  today's times still ahead, else the earliest of tomorrow's), arms one
  timer for the difference, and clears it on teardown. The reload itself
  restarts the hook, so it never re-arms on its own.
 */
module ScheduledReloader {
  import opened Opt
  import opened Clock
  import opened Builtins

  datatype ReloadTime = ReloadTime(hour: int, minute: int)

  /** `schedule = new Date(); schedule.setHours(hour, minute, 0, 0)`. */
  function TodayAt(t: ReloadTime, now: int): int {
    SetHours(now, t.hour, t.minute, 0, 0)
  }

  /** The same, after `schedule.setDate(schedule.getDate() + 1)`. */
  function TomorrowAt(t: ReloadTime, now: int): int {
    SetHours(now + DayMs, t.hour, t.minute, 0, 0)
  }

  /** `todaySchedules`: the instants of all listed times on today's date. */
  function TodaySchedules(times: seq<ReloadTime>, now: int): (r: seq<int>)
    ensures |r| == |times|
    ensures forall t :: t in times ==> TodayAt(t, now) in r
    ensures forall x :: x in r ==> exists t :: t in times && x == TodayAt(t, now)
  {
    if times == [] then [] else [TodayAt(times[0], now)] + TodaySchedules(times[1..], now)
  }

  /** `tomorrowSchedules`: the instants of all listed times on tomorrow's date. */
  function TomorrowSchedules(times: seq<ReloadTime>, now: int): (r: seq<int>)
    ensures |r| == |times|
    ensures forall t :: t in times ==> TomorrowAt(t, now) in r
    ensures forall x :: x in r ==> exists t :: t in times && x == TomorrowAt(t, now)
  {
    if times == [] then [] else [TomorrowAt(times[0], now)] + TomorrowSchedules(times[1..], now)
  }

  /** `.filter(schedule => schedule.getTime() > now.getTime())`. */
  function StillAhead(s: seq<int>, now: int): (r: seq<int>)
    ensures forall x :: x in r <==> x in s && x > now
    ensures (forall x :: x in s ==> x <= now) ==> r == []
  {
    if s == [] then []
    else
      assert s[0] in s;
      if s[0] > now then [s[0]] + StillAhead(s[1..], now)
    else StillAhead(s[1..], now)
  }

  /** The comparator `(a, b) => a.getTime() - b.getTime()`, as "may come first". */
  function Earlier(a: int, b: int): bool {
    a <= b
  }

  lemma EarlierIsTotalPreorder()
    ensures TotalPreorder(Earlier)
  {
  }

  /**
    The instant `scheduleReload` arms the timer for; None when the list is
    empty, where the effect returns before arming anything.
   */
  function NextReload(times: seq<ReloadTime>, now: int): (r: Option<int>)
    ensures r.None? <==> times == []
  {
    if |times| == 0 then None
    else
      EarlierIsTotalPreorder();
      var upcoming := SortBy(StillAhead(TodaySchedules(times, now), now), Earlier);
      if |upcoming| > 0 then Some(upcoming[0])
      else Some(SortBy(TomorrowSchedules(times, now), Earlier)[0])
  }

  /** Some listed time still lies ahead today. */
  ghost predicate AnyLeftToday(times: seq<ReloadTime>, now: int) {
    exists t :: t in times && TodayAt(t, now) > now
  }

  /** `next` is the earliest of today's listed instants that lie strictly after `now`. */
  ghost predicate EarliestAheadToday(next: int, times: seq<ReloadTime>, now: int) {
    && next > now
    && (exists t :: t in times && next == TodayAt(t, now))
    && (forall t :: t in times && TodayAt(t, now) > now ==> next <= TodayAt(t, now))
  }

  /** `next` is the earliest of tomorrow's listed instants. */
  ghost predicate EarliestTomorrow(next: int, times: seq<ReloadTime>, now: int) {
    && (exists t :: t in times && next == TomorrowAt(t, now))
    && (forall t :: t in times ==> next <= TomorrowAt(t, now))
  }

  /**
    The earliest of today's listed instants strictly after `now` is chosen;
    when there is none, the earliest of tomorrow's.
   */
  lemma NextReloadIsEarliest(times: seq<ReloadTime>, now: int)
    ensures NextReload(times, now).None? <==> times == []
    ensures times != [] && AnyLeftToday(times, now) ==>
      EarliestAheadToday(NextReload(times, now).value, times, now)
    ensures times != [] && !AnyLeftToday(times, now) ==>
      EarliestTomorrow(NextReload(times, now).value, times, now)
  {
    if times != [] {
      EarlierIsTotalPreorder();
      var today := TodaySchedules(times, now);
      var ahead := StillAhead(today, now);
      if AnyLeftToday(times, now) {
        var t :| t in times && TodayAt(t, now) > now;
        assert TodayAt(t, now) in ahead;
        SortedHeadIsLeast(ahead, Earlier);
      } else {
        SortedHeadIsLeast(TomorrowSchedules(times, now), Earlier);
      }
    }
  }

  /** Reordering the list or repeating entries in it never changes the chosen instant. */
  lemma NextReloadIgnoresOrderAndDuplicates(times1: seq<ReloadTime>, times2: seq<ReloadTime>, now: int)
    requires forall t :: t in times1 <==> t in times2
    ensures NextReload(times1, now) == NextReload(times2, now)
  {
    NextReloadIsEarliest(times1, now);
    NextReloadIsEarliest(times2, now);
    assert times1 == [] <==> times2 == [] by {
      if times1 != [] { assert times1[0] in times2; }
      if times2 != [] { assert times2[0] in times1; }
    }
    if times1 != [] {
      var n1, n2 := NextReload(times1, now).value, NextReload(times2, now).value;
      if AnyLeftToday(times1, now) {
        assert AnyLeftToday(times2, now);
        assert EarliestAheadToday(n1, times1, now) && EarliestAheadToday(n2, times2, now);
        var u1 :| u1 in times1 && n1 == TodayAt(u1, now);
        var u2 :| u2 in times2 && n2 == TodayAt(u2, now);
        assert n2 <= n1;
        assert n1 <= n2;
      } else {
        assert !AnyLeftToday(times2, now);
        assert EarliestTomorrow(n1, times1, now) && EarliestTomorrow(n2, times2, now);
        var u1 :| u1 in times1 && n1 == TomorrowAt(u1, now);
        var u2 :| u2 in times2 && n2 == TomorrowAt(u2, now);
        assert n2 <= n1;
        assert n1 <= n2;
      }
    }
  }

  /** Hours 0..23 and minutes 0..59, as the caller supplies them. */
  ghost predicate ValidTimes(times: seq<ReloadTime>) {
    forall t :: t in times ==> 0 <= t.hour < 24 && 0 <= t.minute < 60
  }

  /** `delay = nextReload.getTime() - now.getTime()` is strictly positive and at most one day. */
  lemma DelayWithinOneDay(times: seq<ReloadTime>, now: int)
    requires times != [] && ValidTimes(times)
    ensures 0 < NextReload(times, now).value - now <= DayMs
  {
    NextReloadIsEarliest(times, now);
    ShiftByDays(now, 1);
    var next := NextReload(times, now).value;
    if AnyLeftToday(times, now) {
      var t :| t in times && next == TodayAt(t, now);
      assert next < DayStart(now) + DayMs;
    } else {
      var t :| t in times && next == TomorrowAt(t, now);
      assert TodayAt(t, now) <= now;
      assert next == TodayAt(t, now) + DayMs;
    }
  }

  /** The reload times 09:00 and 13:00. */
  const NineAndOne := [ReloadTime(9, 0), ReloadTime(13, 0)]

  /**
    At 08:00 the next reload is today 09:00; at 09:00:01 it is today 13:00;
    at 13:00:01 it is tomorrow 09:00.
   */
  lemma NineAndOneSchedule(now: int)
    ensures TimeOfDay(now) == 8 * HourMs ==>
      NextReload(NineAndOne, now) == Some(DayStart(now) + 9 * HourMs)
    ensures TimeOfDay(now) == 9 * HourMs + 1000 ==>
      NextReload(NineAndOne, now) == Some(DayStart(now) + 13 * HourMs)
    ensures TimeOfDay(now) == 13 * HourMs + 1000 ==>
      NextReload(NineAndOne, now) == Some(DayStart(now) + DayMs + 9 * HourMs)
  {
    NextReloadIsEarliest(NineAndOne, now);
    ShiftByDays(now, 1);
    var nine, one := NineAndOne[0], NineAndOne[1];
    if TimeOfDay(now) == 8 * HourMs {
      assert TodayAt(nine, now) > now;
    } else if TimeOfDay(now) == 9 * HourMs + 1000 {
      assert TodayAt(one, now) > now;
    }
  }

  /** A listed time equal to `now` to the millisecond is not ahead: it moves to tomorrow. */
  lemma ExactTimeIsNotAhead(now: int)
    requires TimeOfDay(now) == 9 * HourMs
    ensures NextReload([ReloadTime(9, 0)], now) == Some(DayStart(now) + DayMs + 9 * HourMs)
  {
    NextReloadIsEarliest([ReloadTime(9, 0)], now);
    ShiftByDays(now, 1);
  }

  // ---------------------------------------------------------------
  // The effect and its timer handle
  // ---------------------------------------------------------------

  /** A pending `setTimeout`: the instant it fires at and the delay it was given. */
  datatype Timer = Timer(due: int, delay: int)

  /** One mounted use of the hook. */
  class Reloader {
    /** `timeoutId` of the current effect run, if it armed one. */
    var pending: Option<Timer>
    /** `window.location.reload()` has been called. */
    var reloadRequested: bool

    constructor()
      ensures pending == None && !reloadRequested
    {
      pending := None;
      reloadRequested := false;
    }

    /**
      The effect body at instant `now`. React runs it on mount and again
      whenever `times` changes, always after the previous run's cleanup.
     */
    method Effect(times: seq<ReloadTime>, now: int)
      requires pending == None
      modifies this
      ensures reloadRequested == old(reloadRequested)
      ensures times == [] ==> pending == None
      ensures times != [] ==>
        pending == Some(Timer(NextReload(times, now).value, NextReload(times, now).value - now))
    {
      if |times| == 0 {
        return;
      }
      var next := NextReload(times, now).value;
      pending := Some(Timer(next, next - now));
    }

    /** The cleanup: `clearTimeout(timeoutId)`. */
    method Cleanup()
      modifies this
      ensures pending == None
      ensures reloadRequested == old(reloadRequested)
    {
      pending := None;
    }

    /** The clock reaches `now`: a pending timer that is due fires once and reloads the page. */
    method Tick(now: int)
      modifies this
      ensures old(pending).Some? && old(pending).value.due <= now ==>
        reloadRequested && pending == None
      ensures !(old(pending).Some? && old(pending).value.due <= now) ==>
        pending == old(pending) && reloadRequested == old(reloadRequested)
    {
      if pending.Some? && pending.value.due <= now {
        pending := None;
        reloadRequested := true;
      }
    }
  }

  /** After mounting at `armedAt`, the page reloads by `later` exactly when some time is listed and its instant has come. */
  method ReloadFiresOnSchedule(times: seq<ReloadTime>, armedAt: int, later: int) returns (reloaded: bool)
    ensures reloaded <==> times != [] && NextReload(times, armedAt).value <= later
  {
    var r := new Reloader();
    r.Effect(times, armedAt);
    r.Tick(later);
    reloaded := r.reloadRequested;
  }

  /** After the cleanup no reload fires, however far the clock advances. */
  method CleanupCancelsReload(times: seq<ReloadTime>, armedAt: int, later: int) returns (reloaded: bool)
    ensures !reloaded
  {
    var r := new Reloader();
    r.Effect(times, armedAt);
    r.Cleanup();
    r.Tick(later);
    reloaded := r.reloadRequested;
  }
}
