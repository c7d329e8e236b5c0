/**
  The dashboard's timetable: it picks today's weekday, falling back to
  Friday at the weekend, and shows the weekly grid or today's cards.
 */
module Dashboard {
  import opened PeriodClock

  /** `getTodayDay`: `Date.getDay()` 1..5 names Mon..Fri; any other index gives `'Fri'`. */
  function TodayDay(dayIndex: int): Day {
    if 1 <= dayIndex <= 5 then Days[dayIndex - 1] else Fri
  }

  /** Weekdays map to themselves, Saturday (6) and Sunday (0) to Friday. */
  lemma TodayDayOfWeekday(dayIndex: int, d: Day)
    ensures TodayDay(DayNumber(d)) == d
    ensures 1 <= dayIndex <= 5 ==> DayNumber(TodayDay(dayIndex)) == dayIndex
    ensures dayIndex == 0 || dayIndex == 6 ==> TodayDay(dayIndex) == Fri
  {
  }

  /** `Timetable` inside the dashboard, given the weekday index of its `currentTime`. */
  function DashboardDisplay(isWeeklyView: bool, weekly: map<Day, seq<Subject>>, now: int, dayIndex: int): View {
    Display(isWeeklyView, weekly, now, TodayDay(dayIndex))
  }

  /** At the weekend the daily view lists Friday's subjects, and the weekly grid highlights only Friday. */
  lemma WeekendShowsFriday(isWeeklyView: bool, weekly: map<Day, seq<Subject>>, now: int, dayIndex: int)
    requires dayIndex == 0 || dayIndex == 6
    ensures !isWeeklyView ==>
      DashboardDisplay(isWeeklyView, weekly, now, dayIndex) == DailyView(DailyCards(SubjectsOf(weekly, Fri), now))
    ensures isWeeklyView ==>
      var g: seq<seq<Cell>> := DashboardDisplay(isWeeklyView, weekly, now, dayIndex).grid;
      forall i, j :: 0 <= i < 4 && 0 <= j < 6 && g[i][j].Occupied? ==> !g[i][j].card.isCurrent
  {
    assert TodayDay(dayIndex) == Fri;
    if isWeeklyView {
      var g: seq<seq<Cell>> := DashboardDisplay(isWeeklyView, weekly, now, dayIndex).grid;
      forall i: int, j: int | 0 <= i < 4 && 0 <= j < 6 && g[i][j].Occupied? ensures !g[i][j].card.isCurrent {
        assert Days[i] != Fri;
        WeeklyGridSlots(weekly, now, Fri, i, j);
      }
    }
  }
}
