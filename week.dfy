/** The dashboard's week window (frontend/src/pages/Dashboard.jsx): the
    Monday that starts a date's week, the seven dates of that week, the week
    a navigation offset selects, and the predicates that highlight dates in
    the mini calendar. Dates are day numbers (see Calendar); a Date object
    that the page copies and then moves with setDate is modelled as the day
    number it ends up holding. */
module Week {
  import opened Optional
  import opened Calendar

  /** The full year the Date constructor uses: a year argument 0..99 is read as 1900..1999. */
  function ConstructorYear(y: int): int {
    if 0 <= y <= 99 then 1900 + y else y
  }

  /** new Date(y, m, d): month and day may overflow into the next month or year. */
  function NewDate(y: int, m: int, d: int): Day {
    FromCivil(ConstructorYear(y), m, d)
  }

  /** date.setDate(dom): the same year and month, day of month dom, which may
      lie outside the month and then rolls over. */
  function SetDate(date: Day, dom: int): (r: Day)
    ensures r == date + dom - ToCivil(date).day
  {
    FromToCivil(date);
    FromCivil(ToCivil(date).year, ToCivil(date).month, dom)
  }

  /** Moving k days moves the weekday by k, modulo 7. */
  lemma WeekdayStep(d: Day, k: int)
    ensures Weekday(d + k) == (Weekday(d) + k) % 7
  {
    var q := (d + 4) / 7;
    assert d + 4 == 7 * q + Weekday(d);
    assert d + k + 4 == 7 * q + (Weekday(d) + k);
  }

  /** Whole weeks do not change the weekday. */
  lemma WeekdayPlusWeeks(d: Day, k: int)
    ensures Weekday(d + 7 * k) == Weekday(d)
  {
    var q := (d + 4) / 7;
    assert d + 4 == 7 * q + Weekday(d);
    assert d + 7 * k + 4 == 7 * (q + k) + Weekday(d);
  }

  /** Monday = 1 .. Sunday = 7, the numbering getStartOfWeek uses. */
  function IsoWeekday(d: Day): int {
    if Weekday(d) == 0 then 7 else Weekday(d)
  }

  /** Stepping back IsoWeekday - 1 days from any date lands on a Monday. */
  lemma MondayOnOrBefore(date: Day)
    ensures Weekday(date - (IsoWeekday(date) - 1)) == 1
    ensures 0 <= IsoWeekday(date) - 1 <= 6
    ensures Weekday(date) == 0 ==> IsoWeekday(date) - 1 == 6
  {
    WeekdayStep(date, -(IsoWeekday(date) - 1));
  }

  /** getStartOfWeek: the Monday of the week holding date; a Sunday is the
      last day of its week, so it maps to the Monday six days earlier. */
  function StartOfWeek(date: Day): (r: Day)
    ensures Weekday(r) == 1
    ensures r <= date <= r + 6
    ensures Weekday(date) == 0 ==> r == date - 6
  {
    MondayOnOrBefore(date);
    SetDate(date, ToCivil(date).day - (IsoWeekday(date) - 1))
  }

  /** A week has one Monday: any Monday at most six days before date is the start of date's week. */
  lemma StartOfWeekUnique(date: Day, monday: Day)
    requires Weekday(monday) == 1 && monday <= date <= monday + 6
    ensures monday == StartOfWeek(date)
  {
    MondaysOfWeek(monday, StartOfWeek(date), date);
  }

  /** Two Mondays each at most six days before the same date are the same day. */
  lemma MondaysOfWeek(a: Day, b: Day, date: Day)
    requires Weekday(a) == 1 && a <= date <= a + 6
    requires Weekday(b) == 1 && b <= date <= b + 6
    ensures a == b
  {
    WeekdayStep(b, a - b);
  }

  /** getWeekDates: the seven consecutive dates from the start of base's week. */
  function WeekDates(base: Day): (r: seq<Day>)
    ensures |r| == 7
    ensures r[0] == StartOfWeek(base) && Weekday(r[0]) == 1 && Weekday(r[6]) == 0
    ensures forall i :: 0 <= i < 7 ==> r[i] == r[0] + i
    ensures r[0] <= base <= r[6]
  {
    var start := StartOfWeek(base);
    SundayAfterMonday(start);
    DaysFrom(start)
  }

  /** The sixth day after a Monday is a Sunday. */
  lemma SundayAfterMonday(start: Day)
    requires Weekday(start) == 1
    ensures Weekday(start + 6) == 0
  {
    WeekdayStep(start, 6);
  }

  /** Seven copies of start, the i-th moved with setDate to start's day of month plus i. */
  function DaysFrom(start: Day): (r: seq<Day>)
    ensures |r| == 7
    ensures forall i :: 0 <= i < 7 ==> r[i] == start + i
  {
    var r := seq(7, i requires 0 <= i < 7 => SetDate(start, ToCivil(start).day + i));
    assert forall i :: 0 <= i < 7 ==> r[i] == SetDate(start, ToCivil(start).day + i);
    r
  }

  /** baseDate: today's year, month and day, moved by seven days per week of offset. */
  function BaseDate(today: Day, weekOffset: int): Day {
    NewDate(ToCivil(today).year, ToCivil(today).month, ToCivil(today).day + weekOffset * 7)
  }

  /** The dates shown for a week offset. */
  function WeekWindow(today: Day, weekOffset: int): (r: seq<Day>)
    ensures |r| == 7
  {
    WeekDates(BaseDate(today, weekOffset))
  }

  /** Outside the years 0..99, which the Date constructor reads as 1900..1999,
      the base date is today moved by exactly seven days per week of offset. */
  lemma BaseDateShift(today: Day, k: int)
    requires !(0 <= ToCivil(today).year <= 99)
    ensures BaseDate(today, k) == today + 7 * k
  {
    FromToCivil(today);
    DayShift(today, ToCivil(today), 7 * k);
  }

  /** Moving the day of month of a date outside the years 0..99 by k moves the date by k days. */
  lemma DayShift(today: Day, c: Civil, k: int)
    requires FromCivil(c.year, c.month, c.day) == today && !(0 <= c.year <= 99)
    ensures NewDate(c.year, c.month, c.day + k) == today + k
  {
  }

  /** Moving a date by whole weeks moves the start of its week by the same amount. */
  lemma StartOfWeekShift(d: Day, k: int)
    ensures StartOfWeek(d + 7 * k) == StartOfWeek(d) + 7 * k
  {
    ShiftedMonday(StartOfWeek(d), StartOfWeek(d + 7 * k), d, k);
  }

  /** The Monday of the week k weeks after a date is k weeks after that date's Monday. */
  lemma ShiftedMonday(s: Day, t: Day, d: Day, k: int)
    requires Weekday(s) == 1 && s <= d <= s + 6
    requires Weekday(t) == 1 && t <= d + 7 * k <= t + 6
    ensures t == s + 7 * k
  {
    WeekdayPlusWeeks(s, k);
    MondaysOfWeek(s + 7 * k, t, d + 7 * k);
  }

  /** The window for offset k is the window for offset 0 moved by 7·k days. */
  lemma WindowShift(today: Day, k: int)
    ensures forall i :: 0 <= i < 7 ==> WeekWindow(today, k)[i] == WeekWindow(today, 0)[i] + 7 * k
  {
    BaseDatesApart(today, k);
    WeeksApart(BaseDate(today, k), BaseDate(today, 0), k);
  }

  /** The base dates of offsets k and 0 are k weeks apart, in every year:
      both go through the same constructor year. */
  lemma BaseDatesApart(today: Day, k: int)
    ensures BaseDate(today, k) == BaseDate(today, 0) + 7 * k
  {
    var c := ToCivil(today);
    NewDateDayShift(c.year, c.month, c.day, 7 * k);
  }

  /** Moving the day argument of the Date constructor by j moves the date by j days. */
  lemma NewDateDayShift(y: int, m: int, d: int, j: int)
    ensures NewDate(y, m, d + j) == NewDate(y, m, d) + j
  {
  }

  /** The weeks of two dates k weeks apart are k weeks apart, date by date. */
  lemma WeeksApart(bk: Day, b0: Day, k: int)
    requires bk == b0 + 7 * k
    ensures forall i :: 0 <= i < 7 ==> WeekDates(bk)[i] == WeekDates(b0)[i] + 7 * k
  {
    ShiftedMonday(StartOfWeek(b0), StartOfWeek(bk), b0, k);
    RunsApart(WeekDates(bk), WeekDates(b0), 7 * k);
  }

  /** Two runs of seven consecutive days whose first days are k apart are k apart day by day. */
  lemma RunsApart(wk: seq<Day>, w0: seq<Day>, k: int)
    requires |wk| == 7 && |w0| == 7
    requires forall i :: 0 <= i < 7 ==> wk[i] == wk[0] + i && w0[i] == w0[0] + i
    requires wk[0] == w0[0] + k
    ensures forall i :: 0 <= i < 7 ==> wk[i] == w0[i] + k
  {
  }

  /** Outside the years 0..99, the window for offset k is the week of today + 7·k. */
  lemma WindowOfShift(today: Day, k: int)
    requires !(0 <= ToCivil(today).year <= 99)
    ensures WeekWindow(today, k) == WeekDates(today + 7 * k)
  {
    BaseDateShift(today, k);
    WindowIsWeekOf(today, k, today + 7 * k);
  }

  /** The window for an offset is the week of its base date. */
  lemma WindowIsWeekOf(today: Day, k: int, base: Day)
    requires BaseDate(today, k) == base
    ensures WeekWindow(today, k) == WeekDates(base)
  {
  }

  /** Neighbouring offsets show neighbouring weeks: every date of the next window is seven days later. */
  lemma AdjacentWindows(today: Day, k: int)
    ensures forall i :: 0 <= i < 7 ==> WeekWindow(today, k + 1)[i] == WeekWindow(today, k)[i] + 7
    ensures WeekWindow(today, k + 1)[0] == WeekWindow(today, k)[6] + 1
  {
    WindowShift(today, k);
    WindowShift(today, k + 1);
  }

  /** The dashboard's navigation state: how many weeks the shown week lies after the current one. */
  class WeekNavigator {
    var weekOffset: int

    constructor ()
      ensures weekOffset == 0
    {
      weekOffset := 0;
    }

    /** The dates shown on the day when today is today. */
    function Window(today: Day): (r: seq<Day>)
      reads this
      ensures |r| == 7
      ensures r == WeekWindow(today, weekOffset)
    {
      WeekWindow(today, weekOffset)
    }

    /** handlePrevWeek */
    method PrevWeek()
      modifies this
      ensures weekOffset == old(weekOffset) - 1
    {
      weekOffset := weekOffset - 1;
    }

    /** handleNextWeek */
    method NextWeek()
      modifies this
      ensures weekOffset == old(weekOffset) + 1
    {
      weekOffset := weekOffset + 1;
    }
  }

  /** Going back a week and then forward again restores the offset and so the shown window. */
  method PrevThenNext(nav: WeekNavigator, today: Day)
    modifies nav
    ensures nav.weekOffset == old(nav.weekOffset)
    ensures nav.Window(today) == old(nav.Window(today))
  {
    nav.PrevWeek();
    nav.NextWeek();
  }

  /** isSameDay: both dates present and on the same calendar day. */
  predicate IsSameDay(d1: Option<Day>, d2: Option<Day>) {
    && d1.Some? && d2.Some?
    && ToCivil(d1.value).year == ToCivil(d2.value).year
    && ToCivil(d1.value).month == ToCivil(d2.value).month
    && ToCivil(d1.value).day == ToCivil(d2.value).day
  }

  /** Comparing year, month and day is comparing dates; an empty cell is never the same day. */
  lemma IsSameDayIff(d1: Option<Day>, d2: Option<Day>)
    ensures IsSameDay(d1, d2) <==> d1.Some? && d1 == d2
  {
    if d1.Some? && d2.Some? {
      ToCivilInjective(d1.value, d2.value);
    }
  }

  /** isInCurrentWeek: the date is the same day as one of the window's dates. */
  predicate IsInCurrentWeek(weekDates: seq<Day>, date: Option<Day>) {
    exists i :: 0 <= i < |weekDates| && IsSameDay(Some(weekDates[i]), date)
  }

  /** isToday */
  predicate IsToday(date: Option<Day>, today: Day) {
    IsSameDay(date, Some(today))
  }

  /** A cell is highlighted as in the week exactly when it holds a date from Monday through Sunday of base's week. */
  lemma IsInCurrentWeekIff(base: Day, date: Option<Day>)
    ensures IsInCurrentWeek(WeekDates(base), date) <==>
              date.Some? && StartOfWeek(base) <= date.value <= StartOfWeek(base) + 6
  {
    var w := WeekDates(base);
    ConsecutiveWeekIff(w, date);
  }

  /** For seven consecutive dates, being the same day as one of them is lying between the first and the last. */
  lemma ConsecutiveWeekIff(w: seq<Day>, date: Option<Day>)
    requires |w| == 7 && forall i :: 0 <= i < 7 ==> w[i] == w[0] + i
    ensures IsInCurrentWeek(w, date) <==> date.Some? && w[0] <= date.value <= w[0] + 6
  {
    InCurrentWeekMember(w, date);
    if date.Some? && w[0] <= date.value <= w[0] + 6 {
      assert w[date.value - w[0]] == date.value;
    }
  }

  /** A cell is in the week exactly when it holds one of the week's dates. */
  lemma InCurrentWeekMember(w: seq<Day>, date: Option<Day>)
    ensures IsInCurrentWeek(w, date) <==> exists i :: 0 <= i < |w| && date == Some(w[i])
  {
    forall i | 0 <= i < |w|
      ensures IsSameDay(Some(w[i]), date) <==> date == Some(w[i])
    {
      IsSameDayIff(Some(w[i]), date);
    }
  }

  /** The cell highlighted as today is also highlighted as in the week of
      today; outside the years 0..99 that is the window for offset 0 (WindowOfShift). */
  lemma TodayInCurrentWeek(today: Day, date: Option<Day>)
    ensures IsToday(date, today) ==> IsInCurrentWeek(WeekDates(today), date)
  {
    if IsToday(date, today) {
      IsSameDayIff(date, Some(today));
      IsInCurrentWeekIff(today, Some(today));
    }
  }
}
