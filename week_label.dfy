/** The dashboard's week heading (frontend/src/pages/Dashboard.jsx:151):
    "D/M/YYYY - D/M/YYYY" from the first and last date of the shown week,
    with the month counted from 1. Numbers are written the way a template
    literal writes an integer: decimal digits without leading zeros, and a
    minus sign for a negative year. The parser is the label's partner: it
    shows that the label names both dates exactly. */
module WeekLabel {
  import opened Optional
  import opened Calendar
  import opened Week

  predicate IsDigit(c: char) {
    '0' <= c <= '9'
  }

  predicate AllDigits(s: string) {
    forall k :: 0 <= k < |s| ==> IsDigit(s[k])
  }

  function DigitChar(d: int): (c: char)
    requires 0 <= d < 10
    ensures IsDigit(c)
  {
    ('0' as int + d) as char
  }

  /** The decimal digits of n. */
  function NatToString(n: nat): (s: string)
    ensures |s| >= 1 && AllDigits(s)
    decreases n
  {
    if n < 10 then [DigitChar(n)] else NatToString(n / 10) + [DigitChar(n % 10)]
  }

  /** The decimal form of i, with a leading '-' when it is negative. */
  function IntToString(i: int): (s: string)
    ensures |s| >= 1
  {
    if i < 0 then "-" + NatToString(-i) else NatToString(i)
  }

  /** The number a string of digits denotes. */
  function DigitsValue(s: string): nat
    requires AllDigits(s)
    decreases |s|
  {
    if s == [] then 0 else 10 * DigitsValue(s[..|s| - 1]) + (s[|s| - 1] as int - '0' as int)
  }

  function ParseNat(s: string): Option<nat> {
    if |s| >= 1 && AllDigits(s) then Some(DigitsValue(s)) else None
  }

  function ParseInt(s: string): Option<int> {
    if |s| >= 1 && s[0] == '-' then
      match ParseNat(s[1..])
      case Some(v) =>
        var negative := -(v as int);
        Some(negative)
      case None => None
    else
      match ParseNat(s)
      case Some(v) => Some(v)
      case None => None
  }

  lemma {:induction false} NatToStringRoundTrip(n: nat)
    ensures ParseNat(NatToString(n)) == Some(n)
    decreases n
  {
    if n >= 10 {
      var s := NatToString(n);
      assert s[..|s| - 1] == NatToString(n / 10);
      assert s[|s| - 1] == DigitChar(n % 10);
      NatToStringRoundTrip(n / 10);
      assert DigitsValue(s) == 10 * (n / 10) + n % 10;
    }
  }

  lemma IntToStringRoundTrip(i: int)
    ensures ParseInt(IntToString(i)) == Some(i)
  {
    if i < 0 {
      NatToStringRoundTrip(-i);
      assert IntToString(i)[1..] == NatToString(-i);
    } else {
      NatToStringRoundTrip(i);
      assert IsDigit(IntToString(i)[0]);
    }
  }

  /** Index of the first c in s, or |s| when there is none. */
  function FirstIndex(s: string, c: char): (k: nat)
    ensures k <= |s|
    ensures k < |s| ==> s[k] == c
    ensures forall j :: 0 <= j < k ==> s[j] != c
    decreases |s|
  {
    if s == [] then 0 else if s[0] == c then 0 else 1 + FirstIndex(s[1..], c)
  }

  /** Splitting a + [c] + b at its first c, when a holds no c, gives back a and b. */
  lemma SplitAtFirst(a: string, c: char, b: string)
    requires forall k :: 0 <= k < |a| ==> a[k] != c
    ensures FirstIndex(a + [c] + b, c) == |a|
    ensures (a + [c] + b)[..|a|] == a && (a + [c] + b)[|a| + 1..] == b
  {
    var s := a + [c] + b;
    assert s[|a|] == c;
  }

  /** Day "/" month counted from 1 "/" year; the fields come from the date's getters. */
  function CivilLabel(c: Civil): (s: string)
    requires 0 <= c.month && 0 <= c.day
  {
    NatToString(c.day) + "/" + NatToString(c.month + 1) + "/" + IntToString(c.year)
  }

  /** Reads a "D/M/Y" label back into (year, month from 0, day). */
  function ParseCivilLabel(s: string): Option<Civil> {
    var i := FirstIndex(s, '/');
    if i == |s| then None
    else
      var rest := s[i + 1..];
      var j := FirstIndex(rest, '/');
      if j == |rest| then None
      else
        ParseFields(s[..i], rest[..j], rest[j + 1..])
  }

  /** The date that day, month (from 1) and year texts denote, if they all read as numbers. */
  function ParseFields(day: string, month: string, year: string): Option<Civil> {
    match (ParseNat(day), ParseNat(month), ParseInt(year))
    case (Some(d), Some(m), Some(y)) => if m >= 1 then Some(Civil(y, m - 1, d)) else None
    case _ => None
  }

  /** A label names its date exactly. */
  lemma CivilLabelRoundTrip(c: Civil)
    requires 0 <= c.month && 0 <= c.day
    ensures ParseCivilLabel(CivilLabel(c)) == Some(c)
  {
    NatToStringRoundTrip(c.day);
    NatToStringRoundTrip(c.month + 1);
    IntToStringRoundTrip(c.year);
    ParseJoined(NatToString(c.day), NatToString(c.month + 1), IntToString(c.year), c);
  }

  /** Parsing day "/" month "/" year text whose parts read back as the fields of c gives c. */
  lemma ParseJoined(a: string, b: string, y: string, c: Civil)
    requires 0 <= c.month && 0 <= c.day
    requires AllDigits(a) && ParseNat(a) == Some(c.day)
    requires AllDigits(b) && ParseNat(b) == Some(c.month + 1)
    requires ParseInt(y) == Some(c.year)
    ensures ParseCivilLabel(a + "/" + b + "/" + y) == Some(c)
  {
    var s, rest := a + "/" + b + "/" + y, b + ['/'] + y;
    assert s == a + ['/'] + rest;
    SplitAtFirst(a, '/', rest);
    SplitAtFirst(b, '/', y);
    ParseSplit(s, a, rest, b, y, c);
  }

  /** Parsing a label whose two splits at '/' give the fields of c gives c. */
  lemma ParseSplit(s: string, a: string, rest: string, b: string, y: string, c: Civil)
    requires 0 <= c.month && 0 <= c.day
    requires FirstIndex(s, '/') == |a| < |s| && s[..|a|] == a && s[|a| + 1..] == rest
    requires FirstIndex(rest, '/') == |b| < |rest| && rest[..|b|] == b && rest[|b| + 1..] == y
    requires ParseNat(a) == Some(c.day) && ParseNat(b) == Some(c.month + 1) && ParseInt(y) == Some(c.year)
    ensures ParseCivilLabel(s) == Some(c)
  {
    assert ParseFields(a, b, y) == Some(c);
  }

  /** The characters a label is made of. */
  predicate IsLabelChar(ch: char) {
    IsDigit(ch) || ch == '/' || ch == '-'
  }

  lemma CivilLabelChars(c: Civil)
    requires 0 <= c.month && 0 <= c.day
    ensures forall k :: 0 <= k < |CivilLabel(c)| ==> IsLabelChar(CivilLabel(c)[k])
  {
    var a, b, y := NatToString(c.day), NatToString(c.month + 1), IntToString(c.year);
    assert CivilLabel(c) == a + ['/'] + b + ['/'] + y;
    assert forall k :: 0 <= k < |y| ==> IsLabelChar(y[k]) by {
      if c.year < 0 {
        assert y == ['-'] + NatToString(-c.year);
      }
    }
  }

  /** The label of a date: its day, month and year as the getters report them. */
  function DateLabel(d: Day): string {
    CivilLabel(ToCivil(d))
  }

  /** weekRange: the first and last shown dates, joined by " - ". */
  function WeekRange(weekDates: seq<Day>): string
    requires |weekDates| == 7
  {
    DateLabel(weekDates[0]) + " - " + DateLabel(weekDates[6])
  }

  /** Reads a week heading back into the dates of its two ends. */
  function ParseWeekRange(s: string): Option<(Civil, Civil)> {
    var i := FirstIndex(s, ' ');
    if i + 3 <= |s| && s[i..i + 3] == " - " then
      match (ParseCivilLabel(s[..i]), ParseCivilLabel(s[i + 3..]))
      case (Some(first), Some(last)) => Some((first, last))
      case _ => None
    else None
  }

  /** A heading names the first and the last date of its week exactly. */
  lemma WeekRangeRoundTrip(weekDates: seq<Day>)
    requires |weekDates| == 7
    ensures ParseWeekRange(WeekRange(weekDates)) == Some((ToCivil(weekDates[0]), ToCivil(weekDates[6])))
  {
    var c0, c6 := ToCivil(weekDates[0]), ToCivil(weekDates[6]);
    LabelsRoundTrip(c0, c6);
  }

  lemma LabelsRoundTrip(c0: Civil, c6: Civil)
    requires 0 <= c0.month && 0 <= c0.day && 0 <= c6.month && 0 <= c6.day
    ensures ParseWeekRange(CivilLabel(c0) + " - " + CivilLabel(c6)) == Some((c0, c6))
  {
    var l0, l6 := CivilLabel(c0), CivilLabel(c6);
    CivilLabelChars(c0);
    var s := l0 + " - " + l6;
    assert s == l0 + [' '] + (['-', ' '] + l6);
    SplitAtFirst(l0, ' ', ['-', ' '] + l6);
    assert s[|l0|..|l0| + 3] == " - ";
    assert s[|l0| + 3..] == l6;
    CivilLabelRoundTrip(c0);
    CivilLabelRoundTrip(c6);
  }

  /** The label identifies the date itself, not only its fields. */
  lemma DateLabelIdentifies(d: Day)
    ensures ParseCivilLabel(DateLabel(d)).Some?
    ensures var c := ParseCivilLabel(DateLabel(d)).value; FromCivil(c.year, c.month, c.day) == d
  {
    CivilLabelRoundTrip(ToCivil(d));
    FromToCivil(d);
  }

  /** The heading for Wednesday 9 July 2025 (day 20278) is "7/7/2025 - 13/7/2025":
      the week runs from Monday the 7th to Sunday the 13th. */
  lemma HeadingOfJuly9th2025()
    ensures WeekRange(WeekDates(20278)) == "7/7/2025 - 13/7/2025"
  {
    WeekOfJuly9th2025();
    JulyLabels();
    HeadingOf(WeekDates(20278), Civil(2025, 6, 7), Civil(2025, 6, 13), "7/7/2025", "13/7/2025");
    HeadingText();
  }

  lemma HeadingText()
    ensures "7/7/2025" + " - " + "13/7/2025" == "7/7/2025 - 13/7/2025"
  {
  }

  /** The heading of a week whose first and last dates are known. */
  lemma HeadingOf(w: seq<Day>, c0: Civil, c6: Civil, t0: string, t6: string)
    requires |w| == 7 && ToCivil(w[0]) == c0 && ToCivil(w[6]) == c6
    requires 0 <= c0.month && 0 <= c0.day && CivilLabel(c0) == t0
    requires 0 <= c6.month && 0 <= c6.day && CivilLabel(c6) == t6
    ensures WeekRange(w) == t0 + " - " + t6
  {
  }

  /** Days 20276 and 20282 are Monday 7 and Sunday 13 July 2025, and they bound the week of day 20278. */
  lemma WeekOfJuly9th2025()
    ensures WeekDates(20278)[0] == 20276 && WeekDates(20278)[6] == 20282
    ensures ToCivil(20276) == Civil(2025, 6, 7) && ToCivil(20282) == Civil(2025, 6, 13)
  {
    StartOfWeekUnique(20278, 20276);
    JulyDate(7);
    JulyDate(13);
  }

  /** Day d of July 2025 is day 20269 + d. */
  lemma JulyDate(d: int)
    requires 1 <= d <= 31
    ensures ToCivil(20269 + d) == Civil(2025, 6, d)
  {
    JulyDayNumber(d);
    ToFromCivil(Civil(2025, 6, d));
  }

  lemma JulyDayNumber(d: int)
    requires 1 <= d <= 31
    ensures FromCivil(2025, 6, d) == 20269 + d
  {
    FromCivilShifted(2025, 6, d);
    ShiftedYearStart2025();
  }

  lemma JulyLabels()
    ensures CivilLabel(Civil(2025, 6, 7)) == "7/7/2025"
    ensures CivilLabel(Civil(2025, 6, 13)) == "13/7/2025"
  {
    JulyNumbers();
    assert "7" + "/" + "7" + "/" + "2025" == "7/7/2025";
    assert "13" + "/" + "7" + "/" + "2025" == "13/7/2025";
  }

  lemma JulyNumbers()
    ensures NatToString(7) == "7" && NatToString(13) == "13" && IntToString(2025) == "2025"
  {
    assert NatToString(20) == "20";
    assert NatToString(202) == "202";
  }
}
