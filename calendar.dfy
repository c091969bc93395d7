/** The proleptic Gregorian calendar as Python's `datetime` uses it: dates of
    years 1 to 9999, the day ordinal of `date.toordinal`, the parse of
    `datetime.strptime(text, "%Y-%m-%d")`, and the countdown to the next
    occurrence of a birthday that `Record.days_to_birthday` evidently intends. */
module Calendar {
  import opened Outcomes
  import opened Text

  /** The range of years `datetime` accepts. */
  const MinYear := 1
  const MaxYear := 9999

  /** Microseconds in one day: the resolution of `datetime.now()`. */
  const MicrosPerDay := 86_400_000_000

  datatype Date = Date(year: int, month: int, day: int)

  predicate IsLeapYear(y: int) {
    y % 4 == 0 && (y % 100 != 0 || y % 400 == 0)
  }

  function DaysInMonth(y: int, m: int): int
    requires 1 <= m <= 12
  {
    if m == 2 then (if IsLeapYear(y) then 29 else 28)
    else if m == 4 || m == 6 || m == 9 || m == 11 then 30
    else 31
  }

  function YearLength(y: int): int {
    if IsLeapYear(y) then 366 else 365
  }

  /** The dates `datetime(year, month, day)` accepts without raising. */
  predicate ValidDate(d: Date) {
    MinYear <= d.year <= MaxYear && 1 <= d.month <= 12 && 1 <= d.day <= DaysInMonth(d.year, d.month)
  }

  /** The calendar order of dates. */
  predicate Precedes(a: Date, b: Date) {
    a.year < b.year ||
    (a.year == b.year && (a.month < b.month || (a.month == b.month && a.day < b.day)))
  }

  /** Days in the years before `y`. */
  function DaysBeforeYear(y: int): int
    requires y >= 1
  {
    var p := y - 1;
    365 * p + p / 4 - p / 100 + p / 400
  }

  /** Days in the months of year `y` before month `m`. */
  function DaysBeforeMonth(y: int, m: int): int
    requires 1 <= m <= 12
  {
    [0, 31, 59, 90, 120, 151, 181, 212, 243, 273, 304, 334][m - 1]
      + (if m > 2 && IsLeapYear(y) then 1 else 0)
  }

  /** The ordinal of a date, counting 0001-01-01 as day 1. */
  function DayNumber(d: Date): int
    requires ValidDate(d)
  {
    DaysBeforeYear(d.year) + DaysBeforeMonth(d.year, d.month) + d.day
  }

  /** Stepping a year across a multiple of 4, 100 or 400 adds one to its quotient. */
  lemma DivStep(y: int, k: int)
    requires y >= 1 && k in {4, 100, 400}
    ensures y / k - (y - 1) / k == (if y % k == 0 then 1 else 0)
  {
    if k == 4 {
      assert y / 4 - (y - 1) / 4 == (if y % 4 == 0 then 1 else 0);
    } else if k == 100 {
      assert y / 100 - (y - 1) / 100 == (if y % 100 == 0 then 1 else 0);
    } else {
      assert y / 400 - (y - 1) / 400 == (if y % 400 == 0 then 1 else 0);
    }
  }

  lemma DivisibilityChain(y: int)
    ensures y % 400 == 0 ==> y % 100 == 0
    ensures y % 100 == 0 ==> y % 4 == 0
  {
    if y % 400 == 0 {
      assert y == 400 * (y / 400);
    }
    if y % 100 == 0 {
      assert y == 100 * (y / 100);
    }
  }

  /** A year contributes its own length to the days before the next one. */
  lemma YearStep(y: int)
    requires y >= 1
    ensures DaysBeforeYear(y + 1) == DaysBeforeYear(y) + YearLength(y)
  {
    var p := y - 1;
    DivStep(y, 4);
    DivStep(y, 100);
    DivStep(y, 400);
    var a := if y % 4 == 0 then 1 else 0;
    var b := if y % 100 == 0 then 1 else 0;
    var c := if y % 400 == 0 then 1 else 0;
    assert DaysBeforeYear(y + 1) - DaysBeforeYear(y) == 365 + a - b + c;
    DivisibilityChain(y);
    assert 365 + a - b + c == YearLength(y);
  }

  lemma {:induction false} DaysBeforeYearGrows(y: int, z: int)
    requires 1 <= y <= z
    ensures DaysBeforeYear(y) + 365 * (z - y) <= DaysBeforeYear(z)
    decreases z - y
  {
    if y < z {
      YearStep(y);
      DaysBeforeYearGrows(y + 1, z);
    }
  }

  /** The day of a valid date lies inside its year. */
  lemma DayOfYearBounds(d: Date)
    requires ValidDate(d)
    ensures 1 <= DaysBeforeMonth(d.year, d.month) + d.day <= YearLength(d.year)
  {
  }

  lemma MonthsGrow(y: int, m: int, n: int)
    requires 1 <= m < n <= 12
    ensures DaysBeforeMonth(y, m) + DaysInMonth(y, m) <= DaysBeforeMonth(y, n)
  {
  }

  /** The ordinal follows the calendar order, in both directions. */
  lemma DayNumberOrder(a: Date, b: Date)
    requires ValidDate(a) && ValidDate(b)
    ensures Precedes(a, b) <==> DayNumber(a) < DayNumber(b)
    ensures a == b <==> DayNumber(a) == DayNumber(b)
  {
    if Precedes(a, b) {
      DayNumberIncreases(a, b);
    } else if Precedes(b, a) {
      DayNumberIncreases(b, a);
    }
  }

  lemma DayNumberIncreases(a: Date, b: Date)
    requires ValidDate(a) && ValidDate(b) && Precedes(a, b)
    ensures DayNumber(a) < DayNumber(b)
  {
    if a.year < b.year {
      DayOfYearBounds(a);
      YearStep(a.year);
      DaysBeforeYearGrows(a.year + 1, b.year);
    } else if a.month < b.month {
      MonthsGrow(a.year, a.month, b.month);
    }
  }

  /** The same month and day one year later lies 365 or 366 days ahead. */
  lemma NextYearSameDay(d: Date, e: Date)
    requires ValidDate(d) && ValidDate(e)
    requires e.year == d.year + 1 && e.month == d.month && e.day == d.day
    ensures 365 <= DayNumber(e) - DayNumber(d) <= 366
  {
    YearStep(d.year);
  }

  // ---------------------------------------------------------------------
  // datetime.strptime(text, "%Y-%m-%d")

  function DigitValue(c: char): int
    requires IsAsciiDigit(c)
  {
    c as int - '0' as int
  }

  function DigitChar(n: int): (c: char)
    requires 0 <= n <= 9
    ensures IsAsciiDigit(c) && DigitValue(c) == n
  {
    ('0' as int + n) as char
  }

  /** Value of a run of two digits. */
  function TwoDigitValue(a: char, b: char): int
    requires IsAsciiDigit(a) && IsAsciiDigit(b)
  {
    10 * DigitValue(a) + DigitValue(b)
  }

  /** `%Y`: exactly four digits. */
  function YearValue(t: string): int
    requires |t| == 4 && IsDigits(t)
  {
    1000 * DigitValue(t[0]) + 100 * DigitValue(t[1]) + 10 * DigitValue(t[2]) + DigitValue(t[3])
  }

  /** `%m-`: the regular expression `1[0-2]|0[1-9]|[1-9]` followed by the
      literal `-`; gives the month and the text after the dash. */
  function ParseMonthDash(t: string): (r: Option<(int, string)>)
    ensures r.Some? ==> 1 <= r.value.0 <= 12
    ensures r.Some? ==> |t| - |r.value.1| in {2, 3} && t[|t| - |r.value.1|..] == r.value.1
  {
    if |t| >= 3 && IsAsciiDigit(t[0]) && IsAsciiDigit(t[1]) && t[2] == '-'
       && 1 <= TwoDigitValue(t[0], t[1]) <= 12
    then Some((TwoDigitValue(t[0], t[1]), t[3..]))
    else if |t| >= 2 && '1' <= t[0] <= '9' && t[1] == '-'
    then Some((DigitValue(t[0]), t[2..]))
    else None
  }

  /** `%d` at the end of the text: the regular expression
      `3[01]|[12]\d|0[1-9]|[1-9]| [1-9]`, after which nothing may remain. */
  function ParseDayToEnd(t: string): (r: Option<int>)
    ensures r.Some? ==> 1 <= r.value <= 31 && 1 <= |t| <= 2
  {
    if |t| == 2 && IsAsciiDigit(t[0]) && IsAsciiDigit(t[1]) && 1 <= TwoDigitValue(t[0], t[1]) <= 31
    then Some(TwoDigitValue(t[0], t[1]))
    else if |t| == 2 && t[0] == ' ' && '1' <= t[1] <= '9'
    then Some(DigitValue(t[1]))
    else if |t| == 1 && '1' <= t[0] <= '9'
    then Some(DigitValue(t[0]))
    else None
  }

  /** The date `datetime.strptime(text, "%Y-%m-%d")` reads, or `None` where it
      raises: the fields must match, consume the whole text and name a date
      `datetime` accepts. */
  function ParseDate(s: string): (r: Option<Date>)
    ensures r.Some? ==> ValidDate(r.value)
    ensures r.Some? ==> 8 <= |s| <= 10 && s[4] == '-'
  {
    if |s| < 5 || !IsDigits(s[..4]) || s[4] != '-' then None
    else
      match ParseMonthDash(s[5..])
      case None => None
      case Some((month, rest)) =>
        match ParseDayToEnd(rest)
        case None => None
        case Some(day) =>
          var d := Date(YearValue(s[..4]), month, day);
          if ValidDate(d) then Some(d) else None
  }

  /** The three ways `%d` reads a day: two digits, and for days below ten one
      digit or a space and a digit. */
  datatype DayForm = TwoDigits | OneDigit | SpacePadded

  function Pad2(n: int): (s: string)
    requires 0 <= n <= 99
    ensures |s| == 2 && IsAsciiDigit(s[0]) && IsAsciiDigit(s[1]) && TwoDigitValue(s[0], s[1]) == n
  {
    [DigitChar(n / 10), DigitChar(n % 10)]
  }

  function Pad4(n: int): (s: string)
    requires 0 <= n <= 9999
    ensures |s| == 4 && IsDigits(s) && YearValue(s) == n
  {
    var thousands, rest := n / 1000, n % 1000;
    var hundreds, rest' := rest / 100, rest % 100;
    var s := [DigitChar(thousands), DigitChar(hundreds), DigitChar(rest' / 10), DigitChar(rest' % 10)];
    assert YearValue(s) == 1000 * thousands + 100 * hundreds + rest';
    s
  }

  /** How `%m` can spell a month: two digits, or one when `short` and the
      month is below ten. */
  function MonthText(month: int, short: bool): string
    requires 1 <= month <= 12
  {
    if short && month < 10 then [DigitChar(month)] else Pad2(month)
  }

  /** How `%d` can spell a day; forms other than two digits apply to days
      below ten. */
  function DayText(day: int, form: DayForm): string
    requires 1 <= day <= 31
  {
    if day >= 10 || form == TwoDigits then Pad2(day)
    else if form == OneDigit then [DigitChar(day)]
    else [' ', DigitChar(day)]
  }

  /** A spelling of a valid date in the shape `%Y-%m-%d`: the year in four
      digits, then the month and the day in one of their forms. */
  function Spelling(d: Date, shortMonth: bool, form: DayForm): string
    requires ValidDate(d)
  {
    Pad4(d.year) + "-" + MonthText(d.month, shortMonth) + "-" + DayText(d.day, form)
  }

  /** `isoformat`-style text of a date: the spelling with every field padded. */
  function Format(d: Date): string
    requires ValidDate(d)
  {
    Spelling(d, false, TwoDigits)
  }

  lemma MonthDashParses(month: int, short: bool, tail: string)
    requires 1 <= month <= 12
    ensures ParseMonthDash(MonthText(month, short) + "-" + tail) == Some((month, tail))
  {
    var t := MonthText(month, short) + "-" + tail;
    if short && month < 10 {
      assert t[2..] == tail;
    } else {
      assert t[3..] == tail;
    }
  }

  lemma DayParses(day: int, form: DayForm)
    requires 1 <= day <= 31
    ensures ParseDayToEnd(DayText(day, form)) == Some(day)
  {
  }

  /** Every spelling of a valid date parses back to that date. */
  lemma SpellingParses(d: Date, shortMonth: bool, form: DayForm)
    requires ValidDate(d)
    ensures ParseDate(Spelling(d, shortMonth, form)) == Some(d)
  {
    var s := Spelling(d, shortMonth, form);
    var y, dayText := Pad4(d.year), DayText(d.day, form);
    var rest := MonthText(d.month, shortMonth) + "-" + dayText;
    assert s == y + "-" + rest;
    assert s[..4] == y && s[4] == '-' && s[5..] == rest;
    MonthDashParses(d.month, shortMonth, dayText);
    DayParses(d.day, form);
  }

  /** The fully padded text of a valid date parses back to that date. */
  lemma FormatParses(d: Date)
    requires ValidDate(d)
    ensures ParseDate(Format(d)) == Some(d)
  {
    SpellingParses(d, false, TwoDigits);
  }

  lemma DigitCharOfValue(c: char)
    requires IsAsciiDigit(c)
    ensures DigitChar(DigitValue(c)) == c
  {
  }

  /** Four digits are the padded spelling of their value. */
  lemma Pad4OfDigits(t: string)
    requires |t| == 4 && IsDigits(t)
    ensures Pad4(YearValue(t)) == t
  {
    var n := YearValue(t);
    var p := Pad4(n);
    var a, b, c, d := DigitValue(t[0]), DigitValue(t[1]), DigitValue(t[2]), DigitValue(t[3]);
    assert n / 1000 == a && n % 1000 == 100 * b + 10 * c + d;
    assert (n % 1000) / 100 == b && (n % 1000) % 100 == 10 * c + d;
    DigitCharOfValue(t[0]);
    DigitCharOfValue(t[1]);
    DigitCharOfValue(t[2]);
    DigitCharOfValue(t[3]);
  }

  /** Two digits are the padded spelling of their value. */
  lemma Pad2OfDigits(a: char, b: char)
    requires IsAsciiDigit(a) && IsAsciiDigit(b)
    ensures Pad2(TwoDigitValue(a, b)) == [a, b]
  {
    DigitCharOfValue(a);
    DigitCharOfValue(b);
  }

  /** Every text `ParseDate` accepts is a spelling of the date it returns. */
  lemma ParsedIsSpelling(s: string)
    requires ParseDate(s).Some?
    ensures exists shortMonth, form :: s == Spelling(ParseDate(s).value, shortMonth, form)
  {
    var d := ParseDate(s).value;
    var t := s[5..];
    var rest := ParseMonthDash(t).value.1;
    Pad4OfDigits(s[..4]);
    var shortMonth := |t| - |rest| == 2;
    var monthText := MonthText(d.month, shortMonth);
    if shortMonth {
      DigitCharOfValue(t[0]);
      assert t == monthText + "-" + rest;
    } else {
      Pad2OfDigits(t[0], t[1]);
      assert t == monthText + "-" + rest;
    }
    var form :=
      if |rest| == 1 then OneDigit
      else if rest[0] == ' ' then SpacePadded
      else TwoDigits;
    var dayText := DayText(d.day, form);
    if form == TwoDigits {
      Pad2OfDigits(rest[0], rest[1]);
    } else if form == OneDigit {
      DigitCharOfValue(rest[0]);
    } else {
      DigitCharOfValue(rest[1]);
    }
    assert rest == dayText;
    assert s == s[..4] + "-" + t;
    assert s == Spelling(d, shortMonth, form);
  }

  // ---------------------------------------------------------------------
  // The countdown of `days_to_birthday`, given the clock reading

  /** A reading of `datetime.now()`: a date and the microseconds since its midnight. */
  datatype Moment = Moment(date: Date, sinceMidnight: int)

  predicate ValidMoment(t: Moment) {
    ValidDate(t.date) && 0 <= t.sinceMidnight < MicrosPerDay
  }

  /** A moment on the common time line, in microseconds. */
  function Micros(t: Moment): int
    requires ValidDate(t.date)
  {
    DayNumber(t.date) * MicrosPerDay + t.sinceMidnight
  }

  /** The midnight that starts a date, on the same time line. */
  function Midnight(d: Date): int
    requires ValidDate(d)
  {
    DayNumber(d) * MicrosPerDay
  }

  /** `(datetime(d) - t).days`: the difference floored to whole days. */
  function WholeDaysUntil(d: Date, t: Moment): int
    requires ValidDate(d) && ValidDate(t.date)
  {
    (Midnight(d) - Micros(t)) / MicrosPerDay
  }

  /** `t` is a valid date carrying the birthday's month and day. */
  predicate IsOccurrence(t: Date, birthday: Date) {
    ValidDate(t) && t.month == birthday.month && t.day == birthday.day
  }

  predicate IsLeapDay(d: Date) {
    d.month == 2 && d.day == 29
  }

  /** Whole days from `now` to the next midnight on the birthday's month and
      day: this year's, unless `now` is already later than it, then next
      year's. Either `datetime(...)` call raises when the date does not exist. */
  function DaysToBirthday(birthday: Option<Date>, now: Moment): (r: Outcome<Option<int>>)
    requires ValidMoment(now)
    ensures birthday.None? <==> r == Ok(None)
  {
    match birthday
    case None => Ok(None)
    case Some(b) =>
      var thisYear := Date(now.date.year, b.month, b.day);
      if !ValidDate(thisYear) then Fail
      else if Micros(now) <= Midnight(thisYear) then Ok(Some(WholeDaysUntil(thisYear, now)))
      else
        var nextYear := Date(now.date.year + 1, b.month, b.day);
        if !ValidDate(nextYear) then Fail
        else Ok(Some(WholeDaysUntil(nextYear, now)))
  }

  /** The whole days to a midnight are the days between the two dates, less
      one when `t` is past its own midnight. */
  lemma WholeDaysOfDayNumbers(d: Date, t: Moment)
    requires ValidDate(d) && ValidMoment(t)
    ensures WholeDaysUntil(d, t) == DayNumber(d) - DayNumber(t.date) - (if t.sinceMidnight == 0 then 0 else 1)
    ensures Micros(t) <= Midnight(d) <==>
      DayNumber(t.date) < DayNumber(d) || (DayNumber(t.date) == DayNumber(d) && t.sinceMidnight == 0)
  {
    var k, s := DayNumber(d) - DayNumber(t.date), t.sinceMidnight;
    assert Midnight(d) - Micros(t) == k * MicrosPerDay - s;
    if s == 0 {
      assert (k * MicrosPerDay) / MicrosPerDay == k;
    } else {
      assert k * MicrosPerDay - s == (k - 1) * MicrosPerDay + (MicrosPerDay - s);
      assert (k * MicrosPerDay - s) / MicrosPerDay == k - 1;
    }
  }

  /** Two dates of one year are less than a year's length apart. */
  lemma SameYearDistance(d: Date, e: Date)
    requires ValidDate(d) && ValidDate(e) && d.year == e.year
    ensures DayNumber(e) - DayNumber(d) <= 365
  {
    DayOfYearBounds(d);
    DayOfYearBounds(e);
  }

  /** Counting to this year's midnight gives 0 to 365 days. */
  lemma ThisYearRange(d: Date, now: Moment)
    requires ValidMoment(now) && ValidDate(d) && d.year == now.date.year
    requires Micros(now) <= Midnight(d)
    ensures 0 <= WholeDaysUntil(d, now) <= 365
  {
    WholeDaysOfDayNumbers(d, now);
    SameYearDistance(now.date, d);
  }

  /** Counting to next year's midnight, once this year's has passed, gives
      0 to 365 days. */
  lemma NextYearRange(d: Date, e: Date, now: Moment)
    requires ValidMoment(now) && ValidDate(d) && d.year == now.date.year
    requires ValidDate(e) && e.year == d.year + 1 && e.month == d.month && e.day == d.day
    requires Micros(now) > Midnight(d)
    ensures 0 <= WholeDaysUntil(e, now) <= 365
  {
    WholeDaysOfDayNumbers(d, now);
    WholeDaysOfDayNumbers(e, now);
    NextYearSameDay(d, e);
    DayNumberIncreases(now.date, e);
  }

  /** A countdown, when there is one, lies between 0 and 365 days. */
  lemma DaysToBirthdayRange(b: Date, now: Moment)
    requires ValidMoment(now)
    ensures DaysToBirthday(Some(b), now).Ok? ==>
      DaysToBirthday(Some(b), now).value.Some? && 0 <= DaysToBirthday(Some(b), now).value.value <= 365
  {
    var y := now.date.year;
    var thisYear := Date(y, b.month, b.day);
    var nextYear := Date(y + 1, b.month, b.day);
    var r := DaysToBirthday(Some(b), now);
    if !ValidDate(thisYear) {
      assert r == Fail;
    } else if Micros(now) <= Midnight(thisYear) {
      ThisYearRange(thisYear, now);
      assert r == Ok(Some(WholeDaysUntil(thisYear, now)));
    } else if ValidDate(nextYear) {
      NextYearRange(thisYear, nextYear, now);
      assert r == Ok(Some(WholeDaysUntil(nextYear, now)));
    } else {
      assert r == Fail;
    }
  }

  /** A later midnight is at least as many whole days away. */
  lemma WholeDaysMonotone(d: Date, e: Date, now: Moment)
    requires ValidDate(d) && ValidDate(e) && ValidDate(now.date)
    requires DayNumber(d) <= DayNumber(e)
    ensures WholeDaysUntil(d, now) <= WholeDaysUntil(e, now)
  {
    var x, z := Midnight(d) - Micros(now), Midnight(e) - Micros(now);
    assert x <= z;
  }

  /** The occurrence `days_to_birthday` counts towards. */
  function NextOccurrence(b: Date, now: Moment): Date
    requires ValidMoment(now)
  {
    var thisYear := Date(now.date.year, b.month, b.day);
    if ValidDate(thisYear) && Micros(now) <= Midnight(thisYear) then thisYear
    else Date(now.date.year + 1, b.month, b.day)
  }

  /** No occurrence not earlier than `now` comes before the one counted to. */
  lemma NextOccurrenceIsEarliest(b: Date, now: Moment, t: Date)
    requires ValidMoment(now) && DaysToBirthday(Some(b), now).Ok?
    requires IsOccurrence(t, b) && Micros(now) <= Midnight(t)
    ensures ValidDate(NextOccurrence(b, now))
    ensures DayNumber(NextOccurrence(b, now)) <= DayNumber(t)
  {
    var y := now.date.year;
    var target := NextOccurrence(b, now);
    if t.year < y {
      DayNumberIncreases(t, now.date);
    } else if t != target {
      assert Precedes(target, t);
      DayNumberIncreases(target, t);
    }
  }

  /** The countdown is the number of whole days to the earliest midnight on
      the birthday's month and day that is not earlier than `now`. */
  lemma DaysToBirthdayIsNextOccurrence(b: Date, now: Moment, n: int)
    requires ValidMoment(now)
    requires DaysToBirthday(Some(b), now) == Ok(Some(n))
    ensures exists t :: IsOccurrence(t, b) && Micros(now) <= Midnight(t) && n == WholeDaysUntil(t, now)
    ensures forall t :: IsOccurrence(t, b) && Micros(now) <= Midnight(t) ==> n <= WholeDaysUntil(t, now)
  {
    var target := NextOccurrence(b, now);
    if target.year != now.date.year {
      DayNumberIncreases(now.date, target);
    }
    assert IsOccurrence(target, b) && Micros(now) <= Midnight(target) && n == WholeDaysUntil(target, now);
    forall t | IsOccurrence(t, b) && Micros(now) <= Midnight(t)
      ensures n <= WholeDaysUntil(t, now)
    {
      NextOccurrenceIsEarliest(b, now, t);
      WholeDaysMonotone(target, t, now);
    }
  }

  /** The countdown raises exactly for a 29 February birthday when this year
      has no 29 February or `now` is already past it (next year then has
      none), and for any other birthday already past in year 9999. */
  lemma DaysToBirthdayFails(b: Date, now: Moment)
    requires ValidMoment(now) && ValidDate(b)
    ensures DaysToBirthday(Some(b), now).Fail? <==>
      (IsLeapDay(b) && (!IsLeapYear(now.date.year) || Micros(now) > Midnight(Date(now.date.year, 2, 29)))) ||
      (!IsLeapDay(b) && now.date.year == MaxYear && Micros(now) > Midnight(Date(MaxYear, b.month, b.day)))
  {
    var y := now.date.year;
    if IsLeapYear(y) {
      assert !IsLeapYear(y + 1);
    }
  }

  /** A birthday falling on the current date, read at midnight, is 0 days away. */
  lemma BirthdayTodayAtMidnight()
    ensures DaysToBirthday(Some(Date(2000, 6, 15)), Moment(Date(2024, 6, 15), 0)) == Ok(Some(0))
  {
  }

  /** From the day after the birthday, at midnight, the next one is 364 days
      away (2024-06-16 to 2025-06-15). */
  lemma BirthdayYesterday()
    ensures DaysToBirthday(Some(Date(2000, 6, 15)), Moment(Date(2024, 6, 16), 0)) == Ok(Some(364))
  {
  }

  /** One microsecond after midnight on the birthday the countdown has moved
      to next year, floored: 364 days rather than 0. */
  lemma BirthdayTodayAfterMidnight()
    ensures DaysToBirthday(Some(Date(2000, 6, 15)), Moment(Date(2024, 6, 15), 1)) == Ok(Some(364))
  {
  }
}
