/**
  The class-period clock of the timetable: the fixed table of six
  periods, the "is this class happening now" test with its five-minute
  grace window, the `HH:MM` label, the course id taken from a subject id,
  and the daily and weekly views built from them. The timetable component
  and the dashboard carry identical copies of this code; it is modelled
  once here, and the two differ only in how they pick today's weekday
  (modules Timetable and Dashboard).
 */
module PeriodClock {
  import opened Opt
  import opened Clock
  import opened Builtins

  datatype HourMinute = HourMinute(h: nat, m: nat)

  datatype PeriodTime = PeriodTime(period: int, start: HourMinute, end: HourMinute)

  /** `periodTimes`. */
  const PeriodTimes: seq<PeriodTime> := [
    PeriodTime(1, HourMinute(9, 15), HourMinute(10, 55)),
    PeriodTime(2, HourMinute(10, 55), HourMinute(12, 25)),
    PeriodTime(3, HourMinute(13, 20), HourMinute(14, 50)),
    PeriodTime(4, HourMinute(15, 0), HourMinute(16, 30)),
    PeriodTime(5, HourMinute(16, 40), HourMinute(18, 10)),
    PeriodTime(6, HourMinute(18, 20), HourMinute(19, 50))
  ]

  /** A class counts as current from this many minutes before its start. */
  const GraceMinutes := 5

  function Minutes(t: HourMinute): int {
    t.h * 60 + t.m
  }

  ghost predicate IsClockTime(t: HourMinute) {
    t.h < 24 && t.m < 60
  }

  /** Periods numbered 1, 2, ... in order, each a proper interval of one day, none overlapping the next. */
  ghost predicate WellFormedTable(table: seq<PeriodTime>) {
    && (forall i :: 0 <= i < |table| ==>
          && table[i].period == i + 1
          && IsClockTime(table[i].start)
          && IsClockTime(table[i].end)
          && Minutes(table[i].start) < Minutes(table[i].end))
    && (forall i :: 0 < i < |table| ==> Minutes(table[i - 1].end) <= Minutes(table[i].start))
  }

  lemma PeriodTableWellFormed()
    ensures |PeriodTimes| == 6
    ensures WellFormedTable(PeriodTimes)
  {
  }

  /** `periodTimes.find(p => p.period === period)`. */
  function LookUp(period: int): Option<PeriodTime> {
    Find(PeriodTimes, (e: PeriodTime) => e.period == period)
  }

  /** Period numbers 1..6 find their own row; every other number finds none. */
  lemma LookUpPeriod(period: int)
    ensures 1 <= period <= 6 ==> LookUp(period) == Some(PeriodTimes[period - 1])
    ensures !(1 <= period <= 6) ==> LookUp(period) == None
  {
    PeriodTableWellFormed();
    var r := LookUp(period);
    if r.Some? {
      var i :| 0 <= i < |PeriodTimes| && PeriodTimes[i] == r.value;
      assert PeriodTimes[i].period == i + 1;
    }
  }

  /** `isCurrentClassTime`: both boundaries are `now` with the hours reset and seconds and milliseconds zeroed. */
  predicate IsCurrentClassTime(period: int, now: int) {
    match LookUp(period)
    case None => false
    case Some(info) =>
      var classStart := SetHours(now, info.start.h, info.start.m - GraceMinutes, 0, 0);
      var classEnd := SetHours(now, info.end.h, info.end.m, 0, 0);
      classStart <= now <= classEnd
  }

  /** First millisecond of the day at which `period` counts as current. */
  function WindowStart(period: int): int
    requires 1 <= period <= 6
  {
    (Minutes(PeriodTimes[period - 1].start) - GraceMinutes) * MinuteMs
  }

  /** Last millisecond of the day at which `period` counts as current. */
  function WindowEnd(period: int): int
    requires 1 <= period <= 6
  {
    Minutes(PeriodTimes[period - 1].end) * MinuteMs
  }

  /** A period is current exactly when the time of day lies in `[start - 5 min, end]`, both ends included. */
  lemma CurrentIffInWindow(period: int, now: int)
    ensures IsCurrentClassTime(period, now) <==>
      1 <= period <= 6 && WindowStart(period) <= TimeOfDay(now) <= WindowEnd(period)
  {
    LookUpPeriod(period);
    if 1 <= period <= 6 {
      var info := PeriodTimes[period - 1];
      assert SetHours(now, info.start.h, info.start.m - GraceMinutes, 0, 0) == DayStart(now) + WindowStart(period);
      assert SetHours(now, info.end.h, info.end.m, 0, 0) == DayStart(now) + WindowEnd(period);
    }
  }

  lemma UnknownPeriodIsNeverCurrent(period: int, now: int)
    requires !(1 <= period <= 6)
    ensures !IsCurrentClassTime(period, now)
  {
    LookUpPeriod(period);
  }

  /** Period 1 is current from 09:10:00.000 to 10:55:00.000. */
  lemma FirstPeriodWindow(now: int)
    ensures IsCurrentClassTime(1, now) <==> 33_000_000 <= TimeOfDay(now) <= 39_300_000
  {
    CurrentIffInWindow(1, now);
  }

  /**
    Both boundaries are exact to the millisecond: the window's first and last
    milliseconds are in, the millisecond before and the one after are out.
   */
  lemma WindowBoundariesAreExact(period: int, day: int)
    requires 1 <= period <= 6
    ensures IsCurrentClassTime(period, day * DayMs + WindowStart(period))
    ensures !IsCurrentClassTime(period, day * DayMs + WindowStart(period) - 1)
    ensures IsCurrentClassTime(period, day * DayMs + WindowEnd(period))
    ensures !IsCurrentClassTime(period, day * DayMs + WindowEnd(period) + 1)
  {
    var s, e := WindowStart(period), WindowEnd(period);
    AtTimeOfDay(day, s);
    AtTimeOfDay(day, s - 1);
    AtTimeOfDay(day, e);
    AtTimeOfDay(day, e + 1);
    CurrentIffInWindow(period, day * DayMs + s);
    CurrentIffInWindow(period, day * DayMs + s - 1);
    CurrentIffInWindow(period, day * DayMs + e);
    CurrentIffInWindow(period, day * DayMs + e + 1);
  }

  /** Only the time of day of `now` matters, never its date. */
  lemma DependsOnlyOnTimeOfDay(period: int, now: int, days: int)
    ensures IsCurrentClassTime(period, now + days * DayMs) == IsCurrentClassTime(period, now)
  {
    ShiftByDays(now, days);
    CurrentIffInWindow(period, now);
    CurrentIffInWindow(period, now + days * DayMs);
  }

  /**
    Periods 1 and 2 touch at 10:55, so with the grace window both are
    current from 10:50 to 10:55; no other two periods are ever current together.
   */
  lemma OnlyFirstTwoPeriodsOverlap(p: int, q: int, now: int)
    requires p < q
    ensures IsCurrentClassTime(p, now) && IsCurrentClassTime(q, now) <==>
      p == 1 && q == 2 && 39_000_000 <= TimeOfDay(now) <= 39_300_000
  {
    CurrentIffInWindow(p, now);
    CurrentIffInWindow(q, now);
  }

  /** `formatTime(h, m)`. */
  function FormatTime(h: nat, m: nat): string {
    PadStart2(NatToString(h)) + ":" + PadStart2(NatToString(m))
  }

  /** Two zero-padded digits, a colon, two zero-padded digits, reading back as `h` and `m`. */
  lemma FormatTimeRoundTrip(h: nat, m: nat)
    requires h < 100 && m < 100
    ensures |FormatTime(h, m)| == 5
    ensures FormatTime(h, m)[2] == ':'
    ensures AllDigits(FormatTime(h, m)[..2]) && AllDigits(FormatTime(h, m)[3..])
    ensures ParseNat(FormatTime(h, m)[..2]) == h
    ensures ParseNat(FormatTime(h, m)[3..]) == m
  {
    var s := FormatTime(h, m);
    TwoDigitsRoundTrip(h);
    TwoDigitsRoundTrip(m);
    assert s[..2] == PadStart2(NatToString(h));
    assert s[3..] == PadStart2(NatToString(m));
  }

  /** `subject.id.split('-')[0]`: the id before its first `-`, or the whole id when there is none. */
  function CourseId(id: string): (r: string)
    ensures r <= id
    ensures '-' !in r
    ensures |r| < |id| ==> id[|r|] == '-'
  {
    SplitHead(id, '-')
  }

  lemma CourseIdOfCompositeId(course: string, rest: string)
    requires '-' !in course
    ensures CourseId(course + "-" + rest) == course
  {
    SplitHeadOfJoin(course, '-', rest);
  }

  // ---------------------------------------------------------------
  // The daily and weekly views
  // ---------------------------------------------------------------

  datatype Subject = Subject(id: string, wday: string, period: int, name: string, classroom: string, teacher: string)

  datatype Day = Mon | Tue | Wed | Thu | Fri

  /** The weekdays in display order, Monday first. */
  const Days: seq<Day> := [Mon, Tue, Wed, Thu, Fri]

  const MaxPeriods := 6

  /** The weekday's number as `Date.getDay()` gives it. */
  function DayNumber(d: Day): (n: int)
    ensures 1 <= n <= 5 && Days[n - 1] == d
  {
    match d
    case Mon => 1
    case Tue => 2
    case Wed => 3
    case Thu => 4
    case Fri => 5
  }

  /** `weeklyData[day] || []`, and `weeklySubjects[day]?` before a lookup. */
  function SubjectsOf(weekly: map<Day, seq<Subject>>, day: Day): seq<Subject> {
    if day in weekly then weekly[day] else []
  }

  /** A subject card: the course page it links to and whether it is highlighted as current. */
  datatype Card = Card(subject: Subject, courseId: string, isCurrent: bool)

  /** One slot of the weekly grid: an empty placeholder or the subject held in it. */
  datatype Cell = Vacant(day: Day, period: int) | Occupied(day: Day, period: int, card: Card)

  /** `weeklySubjects[day]?.find(s => s.period === period)`. */
  function SubjectAt(subjects: seq<Subject>, period: int): Option<Subject> {
    Find(subjects, (s: Subject) => s.period == period)
  }

  function Slot(weekly: map<Day, seq<Subject>>, day: Day, period: int, now: int, today: Day): Cell {
    match SubjectAt(SubjectsOf(weekly, day), period)
    case None => Vacant(day, period)
    case Some(s) => Occupied(day, period, Card(s, CourseId(s.id), day == today && IsCurrentClassTime(s.period, now)))
  }

  /** `WeeklySchedule`: five columns Mon..Fri, each with the slots of periods 1..6. */
  function WeeklyGrid(weekly: map<Day, seq<Subject>>, now: int, today: Day): seq<seq<Cell>> {
    seq(|Days|, i requires 0 <= i < |Days| =>
      seq(MaxPeriods, j requires 0 <= j < MaxPeriods => Slot(weekly, Days[i], j + 1, now, today)))
  }

  /** A slot is empty iff no subject of the day has the period; a filled slot holds the first such subject. */
  lemma SlotContents(weekly: map<Day, seq<Subject>>, day: Day, period: int, now: int, today: Day)
    ensures Slot(weekly, day, period, now, today).day == day
    ensures Slot(weekly, day, period, now, today).period == period
    ensures Slot(weekly, day, period, now, today).Vacant? <==>
      forall s :: s in SubjectsOf(weekly, day) ==> s.period != period
    ensures Slot(weekly, day, period, now, today).Occupied? ==>
      var c := Slot(weekly, day, period, now, today).card;
      && c.subject in SubjectsOf(weekly, day)
      && c.subject.period == period
      && (exists k :: 0 <= k < |SubjectsOf(weekly, day)| && SubjectsOf(weekly, day)[k] == c.subject &&
            forall j :: 0 <= j < k ==> SubjectsOf(weekly, day)[j].period != period)
      && c.courseId == CourseId(c.subject.id)
      && (c.isCurrent <==> day == today && IsCurrentClassTime(period, now))
  {
  }

  /**
    The grid has exactly periods 1..6 for each of the five days; a slot holds
    the first subject of that day with that period, or is empty when there is
    none; and it is highlighted only on today's column, when the window rule holds.
   */
  lemma WeeklyGridSlots(weekly: map<Day, seq<Subject>>, now: int, today: Day, i: int, j: int)
    requires 0 <= i < 5 && 0 <= j < 6
    ensures |WeeklyGrid(weekly, now, today)| == 5
    ensures |WeeklyGrid(weekly, now, today)[i]| == 6
    ensures WeeklyGrid(weekly, now, today)[i][j].day == Days[i]
    ensures WeeklyGrid(weekly, now, today)[i][j].period == j + 1
    ensures WeeklyGrid(weekly, now, today)[i][j].Vacant? <==>
      forall s :: s in SubjectsOf(weekly, Days[i]) ==> s.period != j + 1
    ensures WeeklyGrid(weekly, now, today)[i][j].Occupied? ==>
      var c := WeeklyGrid(weekly, now, today)[i][j].card;
      && c.subject in SubjectsOf(weekly, Days[i])
      && c.subject.period == j + 1
      && (exists k :: 0 <= k < |SubjectsOf(weekly, Days[i])| && SubjectsOf(weekly, Days[i])[k] == c.subject &&
            forall m :: 0 <= m < k ==> SubjectsOf(weekly, Days[i])[m].period != j + 1)
      && c.courseId == CourseId(c.subject.id)
      && (c.isCurrent <==> Days[i] == today && IsCurrentClassTime(j + 1, now))
  {
    assert WeeklyGrid(weekly, now, today)[i][j] == Slot(weekly, Days[i], j + 1, now, today);
    SlotContents(weekly, Days[i], j + 1, now, today);
  }

  /** `DailySchedule`'s card: the current-class test ignores the weekday, since the list is today's. */
  datatype DailyCard = DailyCard(card: Card, hours: Option<string>)

  function DailyCardOf(s: Subject, now: int): DailyCard {
    var hours := match LookUp(s.period)
      case None => None
      case Some(info) => Some(FormatTime(info.start.h, info.start.m) + "-" + FormatTime(info.end.h, info.end.m));
    DailyCard(Card(s, CourseId(s.id), IsCurrentClassTime(s.period, now)), hours)
  }

  function DailyCards(subjects: seq<Subject>, now: int): seq<DailyCard> {
    seq(|subjects|, i requires 0 <= i < |subjects| => DailyCardOf(subjects[i], now))
  }

  /** The hours label of a table row: `HH:MM-HH:MM`. */
  lemma HoursLabelShape(info: PeriodTime)
    requires IsClockTime(info.start) && IsClockTime(info.end)
    ensures var h := FormatTime(info.start.h, info.start.m) + "-" + FormatTime(info.end.h, info.end.m);
      |h| == 11 && h[2] == ':' && h[5] == '-' && h[8] == ':'
  {
    var a := FormatTime(info.start.h, info.start.m);
    var b := FormatTime(info.end.h, info.end.m);
    FormatTimeRoundTrip(info.start.h, info.start.m);
    FormatTimeRoundTrip(info.end.h, info.end.m);
    assert (a + "-" + b)[8] == b[2];
  }

  /**
    A card shows its period's start and end as `HH:MM-HH:MM` when the period
    is in the table, and no hours otherwise.
   */
  lemma DailyCardHours(s: Subject, now: int)
    ensures DailyCardOf(s, now).hours.Some? <==> 1 <= s.period <= 6
    ensures 1 <= s.period <= 6 ==>
      var info := PeriodTimes[s.period - 1];
      DailyCardOf(s, now).hours ==
        Some(FormatTime(info.start.h, info.start.m) + "-" + FormatTime(info.end.h, info.end.m))
    ensures DailyCardOf(s, now).hours.Some? ==>
      var h := DailyCardOf(s, now).hours.value;
      |h| == 11 && h[2] == ':' && h[5] == '-' && h[8] == ':'
  {
    LookUpPeriod(s.period);
    if 1 <= s.period <= 6 {
      PeriodTableWellFormed();
      var info := PeriodTimes[s.period - 1];
      HoursLabelShape(info);
      assert DailyCardOf(s, now).hours == Some(FormatTime(info.start.h, info.start.m) + "-" + FormatTime(info.end.h, info.end.m));
    }
  }

  /**
    The daily view and the weekly grid agree: a subject of today's list whose
    period is in the table makes its cell in today's column occupied by a
    subject of that period, and its daily card is highlighted exactly when
    that cell is.
   */
  lemma DailyAgreesWithWeekly(weekly: map<Day, seq<Subject>>, now: int, today: Day, k: int)
    requires 0 <= k < |SubjectsOf(weekly, today)|
    requires 1 <= SubjectsOf(weekly, today)[k].period <= 6
    ensures |DailyCards(SubjectsOf(weekly, today), now)| == |SubjectsOf(weekly, today)|
    ensures var s := SubjectsOf(weekly, today)[k];
      var cell := WeeklyGrid(weekly, now, today)[DayNumber(today) - 1][s.period - 1];
      && cell.Occupied?
      && cell.card.subject.period == s.period
      && cell.card.isCurrent == DailyCards(SubjectsOf(weekly, today), now)[k].card.isCurrent
  {
    var s := SubjectsOf(weekly, today)[k];
    var i := DayNumber(today) - 1;
    assert s in SubjectsOf(weekly, Days[i]);
    WeeklyGridSlots(weekly, now, today, i, s.period - 1);
  }

  datatype View = WeeklyView(grid: seq<seq<Cell>>) | DailyView(cards: seq<DailyCard>)

  /** The timetable's body once today's weekday is known. */
  function Display(isWeeklyView: bool, weekly: map<Day, seq<Subject>>, now: int, today: Day): View {
    if isWeeklyView then WeeklyView(WeeklyGrid(weekly, now, today))
    else DailyView(DailyCards(SubjectsOf(weekly, today), now))
  }
}
