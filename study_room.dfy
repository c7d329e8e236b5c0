/**
  The study-room notice: which week of the month today falls in, and the
  image file named after the month and that week.
 */
module StudyRoom {
  import opened Builtins

  /** `Math.ceil((mday + firstDayOfWeek) / 7) - 1`. */
  function WeekOfMonth(mday: int, firstDayOfWeek: int): int {
    CeilDiv(mday + firstDayOfWeek, 7) - 1
  }

  /** The week is the row of the day in a Sunday-first month calendar, counting from 0. */
  lemma WeekIsCalendarRow(mday: int, firstDayOfWeek: int)
    requires mday + firstDayOfWeek >= 1
    ensures WeekOfMonth(mday, firstDayOfWeek) == (mday + firstDayOfWeek - 1) / 7
  {
    var w := WeekOfMonth(mday, firstDayOfWeek);
    var x := mday + firstDayOfWeek - 1;
    assert w * 7 <= x < (w + 1) * 7;
  }

  /** Every day of every month lies in week 0..5. */
  lemma WeekOfMonthRange(mday: int, firstDayOfWeek: int)
    requires 1 <= mday <= 31 && 0 <= firstDayOfWeek <= 6
    ensures 0 <= WeekOfMonth(mday, firstDayOfWeek) <= 5
  {
    WeekIsCalendarRow(mday, firstDayOfWeek);
  }

  /** The first of the month is always in week 0. */
  lemma FirstDayIsWeekZero(firstDayOfWeek: int)
    requires 0 <= firstDayOfWeek <= 6
    ensures WeekOfMonth(1, firstDayOfWeek) == 0
  {
    WeekIsCalendarRow(1, firstDayOfWeek);
  }

  /** Later days never fall in earlier weeks. */
  lemma WeekOfMonthMonotone(d1: int, d2: int, firstDayOfWeek: int)
    requires d1 <= d2
    ensures WeekOfMonth(d1, firstDayOfWeek) <= WeekOfMonth(d2, firstDayOfWeek)
  {
  }

  /** The same weekday a week later is exactly one week on. */
  lemma WeekLaterIsNextWeek(mday: int, firstDayOfWeek: int)
    ensures WeekOfMonth(mday + 7, firstDayOfWeek) == WeekOfMonth(mday, firstDayOfWeek) + 1
  {
  }

  /** `${month + 1}.${weekOfMonth}.webp`, for `getMonth()`, `getDate()` and the first's `getDay()`. */
  function ImageName(month: int, mday: int, firstDayOfWeek: int): string
    requires 0 <= month <= 11 && 1 <= mday <= 31 && 0 <= firstDayOfWeek <= 6
  {
    WeekOfMonthRange(mday, firstDayOfWeek);
    NatToString(month + 1) + "." + NatToString(WeekOfMonth(mday, firstDayOfWeek)) + ".webp"
  }

  const ImageDir := "/images/studyroom/"

  /** `imagePath`. */
  function ImagePath(month: int, mday: int, firstDayOfWeek: int): string
    requires 0 <= month <= 11 && 1 <= mday <= 31 && 0 <= firstDayOfWeek <= 6
  {
    ImageDir + ImageName(month, mday, firstDayOfWeek)
  }

  /**
    The path is the study-room directory followed by a file name whose part
    before the first `.` reads as the month number 1..12, whose part after it,
    up to the next `.`, reads as the week, and which ends in `.webp`.
   */
  lemma ImagePathNamesMonthAndWeek(month: int, mday: int, firstDayOfWeek: int)
    requires 0 <= month <= 11 && 1 <= mday <= 31 && 0 <= firstDayOfWeek <= 6
    ensures var path := ImagePath(month, mday, firstDayOfWeek);
      && path[..|ImageDir|] == ImageDir
      && var name := path[|ImageDir|..];
      && var m := SplitHead(name, '.');
      && AllDigits(m) && 1 <= ParseNat(m) <= 12 && ParseNat(m) == month + 1
      && |m| < |name|
      && var w := SplitHead(name[|m| + 1..], '.');
      && AllDigits(w) && ParseNat(w) == WeekOfMonth(mday, firstDayOfWeek)
      && name[|name| - 5..] == ".webp"
  {
    WeekOfMonthRange(mday, firstDayOfWeek);
    var ms := NatToString(month + 1);
    var ws := NatToString(WeekOfMonth(mday, firstDayOfWeek));
    var name := ImageName(month, mday, firstDayOfWeek);
    assert ImagePath(month, mday, firstDayOfWeek)[|ImageDir|..] == name;
    assert name == ms + "." + (ws + ".webp");
    DigitsHaveNoDot(ms);
    DigitsHaveNoDot(ws);
    SplitHeadOfJoin(ms, '.', ws + ".webp");
    assert name[|ms| + 1..] == ws + "." + "webp";
    SplitHeadOfJoin(ws, '.', "webp");
    ParseNatToString(month + 1);
    ParseNatToString(WeekOfMonth(mday, firstDayOfWeek));
  }

  lemma DigitsHaveNoDot(s: string)
    requires AllDigits(s)
    ensures '.' !in s
  {
    forall i | 0 <= i < |s|
      ensures s[i] != '.'
    {
      assert IsDigit(s[i]);
    }
  }
}
