/**
  The timetable component: it picks today's weekday, falling back to
  Monday at the weekend, and shows the weekly grid or today's cards.
 */
module Timetable {
  import opened PeriodClock

  /** `getTodayDay`: `Date.getDay()` 1..5 names Mon..Fri; any other index gives `'Mon'`. */
  function TodayDay(dayIndex: int): Day {
    if 1 <= dayIndex <= 5 then Days[dayIndex - 1] else Mon
  }

  /** Weekdays map to themselves, Saturday (6) and Sunday (0) to Monday. */
  lemma TodayDayOfWeekday(dayIndex: int, d: Day)
    ensures TodayDay(DayNumber(d)) == d
    ensures 1 <= dayIndex <= 5 ==> DayNumber(TodayDay(dayIndex)) == dayIndex
    ensures dayIndex == 0 || dayIndex == 6 ==> TodayDay(dayIndex) == Mon
  {
  }

  /** `TimetableDisplay`, given the weekday index of its `currentTime`. */
  function TimetableDisplay(isWeeklyView: bool, weekly: map<Day, seq<Subject>>, now: int, dayIndex: int): View {
    Display(isWeeklyView, weekly, now, TodayDay(dayIndex))
  }

  /** At the weekend the daily view lists Monday's subjects, and the weekly grid highlights only Monday. */
  lemma WeekendShowsMonday(isWeeklyView: bool, weekly: map<Day, seq<Subject>>, now: int, dayIndex: int)
    requires dayIndex == 0 || dayIndex == 6
    ensures !isWeeklyView ==>
      TimetableDisplay(isWeeklyView, weekly, now, dayIndex) == DailyView(DailyCards(SubjectsOf(weekly, Mon), now))
    ensures isWeeklyView ==>
      var g: seq<seq<Cell>> := TimetableDisplay(isWeeklyView, weekly, now, dayIndex).grid;
      forall i, j :: 1 <= i < 5 && 0 <= j < 6 && g[i][j].Occupied? ==> !g[i][j].card.isCurrent
  {
    assert TodayDay(dayIndex) == Mon;
    if isWeeklyView {
      var g: seq<seq<Cell>> := TimetableDisplay(isWeeklyView, weekly, now, dayIndex).grid;
      forall i: int, j: int | 1 <= i < 5 && 0 <= j < 6 && g[i][j].Occupied? ensures !g[i][j].card.isCurrent {
        assert Days[i] != Mon;
        WeeklyGridSlots(weekly, now, Mon, i, j);
      }
    }
  }
}
