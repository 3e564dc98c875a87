/** The dashboard's mini calendar (getMonthMatrix in
    frontend/src/pages/Dashboard.jsx): the days of a month laid out in rows
    of a Sunday-first grid. The first row holds only the days up to the first
    Saturday, with no empty cells before the first day; every later row has
    seven cells, and the last one is filled up with empty cells. */
module MonthCalendar {
  import opened Optional
  import opened Calendar
  import opened Week

  /** lastDay.getDate() for lastDay = new Date(year, month + 1, 0). */
  function LastDateOfMonth(year: int, month: int): int {
    ToCivil(NewDate(year, month + 1, 0)).day
  }

  /** The Gregorian length of the month the Date constructor makes of (year, month). */
  function DaysInMonth(year: int, month: int): int {
    MonthLength(NormYear(ConstructorYear(year), month), NormMonth(month))
  }

  /** Number of cells in the first row of a month whose first day is first:
      that day and the days after it up to Saturday. */
  function FirstRowLength(first: Day): int {
    7 - Weekday(first)
  }

  /** Number of seven-cell rows after the first row for a month of n days. */
  function LaterRowCount(first: Day, n: int): nat {
    var head := FirstRowLength(first);
    if n <= head then 0 else (n - head + 6) / 7
  }

  /** The cell for day d of a month of n days that begins on first, or an empty cell past the last day. */
  function Cell(first: Day, n: int, d: int): Option<Day> {
    if d <= n then Some(first + d - 1) else None
  }

  /** Row r (from 0) of the rows after the first: seven consecutive day numbers. */
  function LaterRow(first: Day, n: int, r: int): seq<Option<Day>> {
    seq(7, j => Cell(first, n, FirstRowLength(first) + 7 * r + j + 1))
  }

  /** The first row: the first day and the days after it up to Saturday, with no empty cells before them. */
  function FirstRow(first: Day): seq<Option<Day>> {
    seq(FirstRowLength(first), k => Some(first + k))
  }

  /** The layout of a month of n days that begins on first. */
  function Grid(first: Day, n: int): seq<seq<Option<Day>>> {
    [FirstRow(first)] + seq(LaterRowCount(first, n), r => LaterRow(first, n, r))
  }

  /** Rows that agree with the layout row by row are the layout. */
  lemma GridOfRows(first: Day, n: int, rows: seq<seq<Option<Day>>>)
    requires |rows| == 1 + LaterRowCount(first, n)
    requires rows[0] == FirstRow(first)
    requires forall r :: 1 <= r < |rows| ==> rows[r] == LaterRow(first, n, r - 1)
    ensures rows == Grid(first, n)
  {
    var g := Grid(first, n);
    forall r | 0 <= r < |rows|
      ensures rows[r] == g[r]
    {
      if r > 0 {
        assert g[r] == LaterRow(first, n, r - 1);
      }
    }
  }

  /** The grid getMonthMatrix builds for (year, month). */
  function MonthGrid(year: int, month: int): seq<seq<Option<Day>>> {
    Grid(NewDate(year, month, 1), DaysInMonth(year, month))
  }

  /** "Day 0 of the next month" is the last day of the month: the number of
      days is the Gregorian month length, 29 for a leap February. */
  lemma LastDateIsMonthLength(year: int, month: int)
    ensures LastDateOfMonth(year, month) == MonthLength(NormYear(ConstructorYear(year), month), NormMonth(month))
  {
    var y := ConstructorYear(year);
    var ny, nm := NormYear(y, month), NormMonth(month);
    var len := MonthLength(ny, nm);
    LastDayNumber(y, month);
    DayOfDate(NewDate(year, month + 1, 0), Civil(ny, nm, len));
  }

  /** Day 0 of the next month is the day numbered by the month's length. */
  lemma LastDayNumber(y: int, month: int)
    ensures FromCivil(y, month + 1, 0) == FromCivil(NormYear(y, month), NormMonth(month), MonthLength(NormYear(y, month), NormMonth(month)))
  {
    MonthSpan(y, month);
    NormalForm(y, month, 1);
  }

  /** The getters of the day a valid date names report that date. */
  lemma DayOfDate(x: Day, c: Civil)
    requires ValidCivil(c) && x == FromCivil(c.year, c.month, c.day)
    ensures ToCivil(x) == c
  {
    ToFromCivil(c);
  }

  /** A date given with an overflowing month number is the same date as with its normal form. */
  lemma NormalForm(y: int, month: int, d: int)
    ensures FromCivil(NormYear(y, month), NormMonth(month), d) == FromCivil(y, month, d)
  {
    var nm := NormMonth(month);
    assert NormYear(NormYear(y, month), nm) == NormYear(y, month);
    assert NormMonth(nm) == nm;
  }

  /** Days of a month are consecutive day numbers from its first day. */
  lemma NewDateStep(year: int, month: int, d: int)
    ensures NewDate(year, month, d) == NewDate(year, month, 1) + d - 1
  {
  }

  /** The cell new Date(year, month, d) holds day d of the month, for every d of the month. */
  lemma DayOfMonthCell(year: int, month: int, d: int)
    requires 1 <= d <= DaysInMonth(year, month)
    ensures ToCivil(NewDate(year, month, d)) == Civil(NormYear(ConstructorYear(year), month), NormMonth(month), d)
  {
    var y := ConstructorYear(year);
    NormalForm(y, month, d);
    ToFromCivil(Civil(NormYear(y, month), NormMonth(month), d));
  }

  /** getMonthMatrix: the first loop fills the first row from the weekday of
      the first day on, the second adds rows of seven cells until the last
      day is placed. */
  method MonthMatrix(year: int, month: int) returns (matrix: seq<seq<Option<Day>>>)
    ensures matrix == MonthGrid(year, month)
  {
    var firstDay := NewDate(year, month, 1);
    var lastDay := NewDate(year, month + 1, 0);
    matrix := [];
    var week, day := FillFirstWeek(year, month, firstDay);
    matrix := matrix + [week];
    ghost var head := FirstRowLength(firstDay);
    ghost var n := DaysInMonth(year, month);
    ghost var later := LaterRowCount(firstDay, n);
    LastDateIsMonthLength(year, month);
    assert ToCivil(lastDay).day == n;
    while day <= ToCivil(lastDay).day
      invariant 1 <= |matrix| <= later + 1
      invariant matrix[0] == FirstRow(firstDay)
      invariant forall r :: 1 <= r < |matrix| ==> matrix[r] == LaterRow(firstDay, n, r - 1)
      invariant day == if |matrix| - 1 < later then head + 7 * (|matrix| - 1) + 1 else n + 1
      decreases n + 1 - day
    {
      week, day := FillWeek(year, month, firstDay, ToCivil(lastDay).day, |matrix| - 1, day);
      matrix := matrix + [week];
    }
    GridOfRows(firstDay, n, matrix);
  }

  /** The first loop of getMonthMatrix: cells from the first day's weekday to Saturday. */
  method FillFirstWeek(year: int, month: int, firstDay: Day) returns (week: seq<Option<Day>>, day: int)
    requires firstDay == NewDate(year, month, 1)
    ensures week == FirstRow(firstDay)
    ensures day == FirstRowLength(firstDay) + 1
  {
    week := [];
    var dayOfWeek := Weekday(firstDay);
    day := 1;
    for i := 0 to 7
      invariant |week| == if i <= dayOfWeek then 0 else i - dayOfWeek
      invariant day == |week| + 1
      invariant forall k :: 0 <= k < |week| ==> week[k] == Some(firstDay + k)
    {
      if i >= dayOfWeek {
        NewDateStep(year, month, day);
        week := week + [Some(NewDate(year, month, day))];
        day := day + 1;
      }
    }
  }

  /** One pass of the inner loop of getMonthMatrix: row r after the first,
      seven cells holding the next days, then empty cells past the last day. */
  method FillWeek(year: int, month: int, firstDay: Day, lastDate: int, r: nat, day0: int)
      returns (week: seq<Option<Day>>, day: int)
    requires firstDay == NewDate(year, month, 1)
    requires day0 == FirstRowLength(firstDay) + 7 * r + 1 <= lastDate
    ensures week == LaterRow(firstDay, lastDate, r)
    ensures day == if day0 + 7 <= lastDate then day0 + 7 else lastDate + 1
  {
    var head := FirstRowLength(firstDay);
    week := [];
    day := day0;
    for i := 0 to 7
      invariant |week| == i
      invariant forall j :: 0 <= j < i ==> week[j] == Cell(firstDay, lastDate, head + 7 * r + j + 1)
      invariant day == if head + 7 * r + i + 1 <= lastDate then head + 7 * r + i + 1 else lastDate + 1
    {
      if day > lastDate {
        week := week + [None];
      } else {
        NewDateStep(year, month, day);
        week := week + [Some(NewDate(year, month, day))];
        day := day + 1;
      }
    }
  }

  /** A whole number of weeks is needed to place x days, and one week fewer is not enough. */
  lemma WeeksToPlace(x: int)
    requires x >= 1
    ensures 7 * ((x + 6) / 7 - 1) < x <= 7 * ((x + 6) / 7)
  {
  }

  /** The shape of the layout: a first row of 7 - weekday(first day) days,
      later rows of seven cells, empty cells only at the end of the last row,
      and no row without a day. */
  lemma GridShape(first: Day, n: int)
    requires n >= 28
    ensures var g := Grid(first, n);
      && |g| == 1 + LaterRowCount(first, n)
      && |g[0]| == 7 - Weekday(first)
      && (forall k :: 0 <= k < |g[0]| ==> g[0][k].Some?)
      && (forall r :: 1 <= r < |g| ==> |g[r]| == 7)
      && (forall r, j :: 0 <= r < |g| && 0 <= j < |g[r]| && g[r][j] == None ==>
            r == |g| - 1 && forall j' :: j <= j' < |g[r]| ==> g[r][j'] == None)
      && g[|g| - 1][0].Some?
  {
    var g := Grid(first, n);
    var head, later := FirstRowLength(first), LaterRowCount(first, n);
    WeeksToPlace(n - head);
    assert later == (n - head + 6) / 7;
    assert g[0] == FirstRow(first);
    assert forall k :: 0 <= k < |g[0]| ==> g[0][k] == Some(first + k);
    forall r, j | 0 <= r < |g| && 0 <= j < |g[r]| && g[r][j] == None
      ensures r == |g| - 1 && forall j' :: j <= j' < |g[r]| ==> g[r][j'] == None
    {
      var row := LaterRow(first, n, r - 1);
      assert g[r] == row;
      assert row[j] == Cell(first, n, head + 7 * (r - 1) + j + 1);
      assert r == later;
      forall j' | j <= j' < 7
        ensures row[j'] == None
      {
        assert row[j'] == Cell(first, n, head + 7 * (r - 1) + j' + 1);
      }
    }
    var last := LaterRow(first, n, later - 1);
    assert g[later] == last;
    assert last[0] == Cell(first, n, head + 7 * (later - 1) + 1);
  }

  /** The cells of the grid in reading order, as .flat() lists them. */
  function Flatten(rows: seq<seq<Option<Day>>>): seq<Option<Day>>
    decreases |rows|
  {
    if rows == [] then [] else Flatten(rows[..|rows| - 1]) + rows[|rows| - 1]
  }

  /** The dates of the non-empty cells, in order. */
  function Present(cells: seq<Option<Day>>): seq<Day>
    decreases |cells|
  {
    if cells == [] then []
    else Present(cells[..|cells| - 1]) + (if cells[|cells| - 1].Some? then [cells[|cells| - 1].value] else [])
  }

  lemma {:induction false} PresentAppend(a: seq<Option<Day>>, b: seq<Option<Day>>)
    ensures Present(a + b) == Present(a) + Present(b)
    decreases |b|
  {
    if b == [] {
      assert a + b == a;
    } else {
      var init := b[..|b| - 1];
      assert (a + b)[..|a + b| - 1] == a + init;
      PresentAppend(a, init);
    }
  }

  /** A row whose first m cells hold dates and whose other cells are empty lists those m dates. */
  lemma {:induction false} PresentTrailing(cells: seq<Option<Day>>, m: int)
    requires 0 <= m <= |cells|
    requires forall j :: 0 <= j < m ==> cells[j].Some?
    requires forall j :: m <= j < |cells| ==> cells[j] == None
    ensures |Present(cells)| == m
    ensures forall j :: 0 <= j < m ==> Present(cells)[j] == cells[j].value
    decreases |cells|
  {
    if cells != [] {
      var init := cells[..|cells| - 1];
      if m == |cells| {
        PresentTrailing(init, m - 1);
      } else {
        PresentTrailing(init, m);
      }
    }
  }

  /** Taking one more row appends that row's cells. */
  lemma FlattenPrefix(rows: seq<seq<Option<Day>>>, c: nat)
    requires c < |rows|
    ensures Flatten(rows[..c + 1]) == Flatten(rows[..c]) + rows[c]
  {
    assert rows[..c + 1][..c] == rows[..c];
  }

  /** Row r after the first lists the days head + 7·r + 1 onwards, up to seven of them and none past day n. */
  lemma LaterRowDays(first: Day, n: int, r: nat)
    requires r < LaterRowCount(first, n)
    ensures var base := FirstRowLength(first) + 7 * r;
      var m := if base + 7 <= n then 7 else n - base;
      var R := Present(LaterRow(first, n, r));
      && 1 <= m <= 7
      && |R| == m
      && forall j :: 0 <= j < m ==> R[j] == first + base + j
  {
    var head := FirstRowLength(first);
    var base := head + 7 * r;
    WeeksToPlace(n - head);
    var m := if base + 7 <= n then 7 else n - base;
    var row := LaterRow(first, n, r);
    assert forall j :: 0 <= j < 7 ==> row[j] == Cell(first, n, base + j + 1);
    PresentTrailing(row, m);
  }

  /** The first row lists its own days. */
  lemma FirstRowDays(first: Day)
    ensures var R := Present(FirstRow(first));
      && |R| == FirstRowLength(first)
      && forall k :: 0 <= k < FirstRowLength(first) ==> R[k] == first + k
  {
    PresentTrailing(FirstRow(first), FirstRowLength(first));
  }

  /** The first c + 1 rows list the first head + 7·c days of the month, or all of them. */
  lemma {:induction false} GridPrefixDays(first: Day, n: int, c: nat)
    requires n >= 28 && c <= LaterRowCount(first, n)
    ensures var P := Present(Flatten(Grid(first, n)[..c + 1]));
      var m := if FirstRowLength(first) + 7 * c <= n then FirstRowLength(first) + 7 * c else n;
      && |P| == m
      && forall k :: 0 <= k < m ==> P[k] == first + k
  {
    if c == 0 {
      GridHeadDays(first, n);
    } else {
      GridPrefixDays(first, n, c - 1);
      GridPrefixStep(first, n, c);
    }
  }

  /** The first row of the grid lists its own days. */
  lemma GridHeadDays(first: Day, n: int)
    ensures var P := Present(Flatten(Grid(first, n)[..1]));
      && |P| == FirstRowLength(first)
      && forall k :: 0 <= k < FirstRowLength(first) ==> P[k] == first + k
  {
    var g := Grid(first, n);
    FlattenPrefix(g, 0);
    assert Flatten(g[..1]) == g[0];
    assert g[0] == FirstRow(first);
    FirstRowDays(first);
  }

  /** Adding row c to the first c rows adds the next days. */
  lemma GridPrefixStep(first: Day, n: int, c: nat)
    requires n >= 28 && 1 <= c <= LaterRowCount(first, n)
    requires var P := Present(Flatten(Grid(first, n)[..c]));
      var m := if FirstRowLength(first) + 7 * (c - 1) <= n then FirstRowLength(first) + 7 * (c - 1) else n;
      && |P| == m
      && forall k :: 0 <= k < m ==> P[k] == first + k
    ensures var P := Present(Flatten(Grid(first, n)[..c + 1]));
      var m := if FirstRowLength(first) + 7 * c <= n then FirstRowLength(first) + 7 * c else n;
      && |P| == m
      && forall k :: 0 <= k < m ==> P[k] == first + k
  {
    var g := Grid(first, n);
    PresentOfPrefix(g, c);
    assert g[c] == LaterRow(first, n, c - 1);
    LaterRowDays(first, n, c - 1);
    PrefixStep(first, n, c, Present(Flatten(g[..c])), Present(g[c]), Present(Flatten(g[..c + 1])));
  }

  /** The days of c + 1 rows are the days of c rows followed by those of row c. */
  lemma PresentOfPrefix(rows: seq<seq<Option<Day>>>, c: nat)
    requires c < |rows|
    ensures Present(Flatten(rows[..c + 1])) == Present(Flatten(rows[..c])) + Present(rows[c])
  {
    FlattenPrefix(rows, c);
    PresentAppend(Flatten(rows[..c]), rows[c]);
  }

  /** The days of c rows followed by the days of row c make the days of c + 1 rows. */
  lemma PrefixStep(first: Day, n: int, c: nat, A: seq<Day>, R: seq<Day>, B: seq<Day>)
    requires 1 <= c <= LaterRowCount(first, n)
    requires var head := FirstRowLength(first);
      var mA := if head + 7 * (c - 1) <= n then head + 7 * (c - 1) else n;
      |A| == mA && forall k :: 0 <= k < mA ==> A[k] == first + k
    requires var base := FirstRowLength(first) + 7 * (c - 1);
      var m := if base + 7 <= n then 7 else n - base;
      |R| == m && forall j :: 0 <= j < m ==> R[j] == first + base + j
    requires B == A + R
    ensures var m := if FirstRowLength(first) + 7 * c <= n then FirstRowLength(first) + 7 * c else n;
      && |B| == m
      && forall k :: 0 <= k < m ==> B[k] == first + k
  {
    var head := FirstRowLength(first);
    WeeksToPlace(n - head);
    assert head + 7 * (c - 1) < n;
  }

  /** The non-empty cells, read row by row, are the n days of the month in order. */
  lemma GridDays(first: Day, n: int)
    requires n >= 28
    ensures var P := Present(Flatten(Grid(first, n)));
      |P| == n && forall k :: 0 <= k < n ==> P[k] == first + k
  {
    var g := Grid(first, n);
    var later := LaterRowCount(first, n);
    WeeksToPlace(n - FirstRowLength(first));
    GridPrefixDays(first, n, later);
    assert g[..later + 1] == g;
  }

  /** getMonthMatrix's grid: the first row has 7 - weekday(first of month)
      cells, all days; later rows have seven; empty cells trail the last row
      only; and the non-empty cells, read row by row, are new Date(year,
      month, 1), ..., new Date(year, month, n), where n is the Gregorian
      length of the month (29 for a leap February), and cell k holds day k. */
  lemma MonthGridSpec(year: int, month: int)
    ensures var g := MonthGrid(year, month);
      var P := Present(Flatten(g));
      && |g[0]| == 7 - Weekday(NewDate(year, month, 1))
      && (forall r :: 1 <= r < |g| ==> |g[r]| == 7)
      && (forall r, j :: 0 <= r < |g| && 0 <= j < |g[r]| && g[r][j] == None ==>
            r == |g| - 1 && forall j' :: j <= j' < |g[r]| ==> g[r][j'] == None)
      && |P| == MonthLength(NormYear(ConstructorYear(year), month), NormMonth(month))
      && (forall k :: 0 <= k < |P| ==> P[k] == NewDate(year, month, k + 1))
      && (forall k :: 0 <= k < |P| ==> ToCivil(P[k]).day == k + 1)
  {
    var first, n := NewDate(year, month, 1), DaysInMonth(year, month);
    assert MonthGrid(year, month) == Grid(first, n);
    GridShape(first, n);
    GridDays(first, n);
    var P := Present(Flatten(Grid(first, n)));
    forall k | 0 <= k < |P|
      ensures P[k] == NewDate(year, month, k + 1) && ToCivil(P[k]).day == k + 1
    {
      NewDateStep(year, month, k + 1);
      DayOfMonthCell(year, month, k + 1);
    }
  }

  /** A valid date outside the years 0..99 is a cell of its month's grid. */
  lemma DateInItsMonth(c: Civil)
    requires ValidCivil(c) && !(0 <= c.year <= 99)
    ensures FromCivil(c.year, c.month, c.day) in Present(Flatten(MonthGrid(c.year, c.month)))
  {
    var first, n := NewDate(c.year, c.month, 1), DaysInMonth(c.year, c.month);
    OwnMonth(c);
    GridDays(first, n);
    DayAmongDays(Present(Flatten(Grid(first, n))), first, n, c.day - 1, FromCivil(c.year, c.month, c.day));
  }

  /** For a valid date outside the years 0..99, the Date constructor keeps
      the month, and the date is the first of the month plus day - 1. */
  lemma OwnMonth(c: Civil)
    requires ValidCivil(c) && !(0 <= c.year <= 99)
    ensures DaysInMonth(c.year, c.month) == MonthLength(c.year, c.month)
    ensures FromCivil(c.year, c.month, c.day) == NewDate(c.year, c.month, 1) + c.day - 1
    ensures 1 <= c.day <= DaysInMonth(c.year, c.month)
  {
    NewDateStep(c.year, c.month, c.day);
  }

  /** A list of the n days from first on holds each of them. */
  lemma DayAmongDays(P: seq<Day>, first: Day, n: int, k: int, x: Day)
    requires |P| == n && forall i :: 0 <= i < n ==> P[i] == first + i
    requires 0 <= k < n && x == first + k
    ensures x in P
  {
    assert P[k] == x;
  }

  /** The mini calendar shows the month of the base date (calendarYear and
      calendarMonth), and the base date is one of its cells, unless the
      base date lies in the years 0..99, which the Date constructor reads as
      1900..1999. */
  lemma BaseDateShown(base: Day)
    requires !(0 <= ToCivil(base).year <= 99)
    ensures base in Present(Flatten(MonthGrid(ToCivil(base).year, ToCivil(base).month)))
  {
    FromToCivil(base);
    DateInItsMonth(ToCivil(base));
  }

  /** July 2025 has 31 days and begins on a Tuesday: its first row holds
      only the five days 1..5, and four rows follow it. */
  lemma July2025()
    ensures DaysInMonth(2025, 6) == 31
    ensures FirstRowLength(NewDate(2025, 6, 1)) == 5
    ensures LaterRowCount(NewDate(2025, 6, 1), 31) == 4
  {
    July1st2025();
    RowsOfJuly2025(NewDate(2025, 6, 1));
  }

  /** A 31-day month that begins on a Tuesday has a first row of five cells and four rows after it. */
  lemma RowsOfJuly2025(first: Day)
    requires first == 20270
    ensures Weekday(first) == 2
    ensures FirstRowLength(first) == 5 && LaterRowCount(first, 31) == 4
  {
  }

  /** 1 July 2025 is day 20270. */
  lemma July1st2025()
    ensures NewDate(2025, 6, 1) == 20270
  {
    FromCivilShifted(2025, 6, 1);
    ShiftedYearStart2025();
    assert MonthStartInYear(ShiftedMonth(6)) == 122;
  }

}
