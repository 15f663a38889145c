/** Dates as valida_data sees them: the proleptic Gregorian calendar of
    Python's datetime.date (years 1 to 9999), the strict day/month/year
    parse of strptime('%d/%m/%Y'), the strftime output of the same format,
    day arithmetic (date + timedelta, date - date) and dateutil's
    relativedelta(months=n). */
module Dates {
  import opened Wrappers
  import opened Text

  datatype Date = Date(year: int, month: int, day: int)

  const MinYear: int := 1
  const MaxYear: int := 9999

  predicate IsLeap(y: int) {
    y % 4 == 0 && (y % 100 != 0 || y % 400 == 0)
  }

  function DaysInMonth(y: int, m: int): (n: int)
    requires 1 <= m <= 12
    ensures 28 <= n <= 31
  {
    if m == 2 then (if IsLeap(y) then 29 else 28)
    else if m == 4 || m == 6 || m == 9 || m == 11 then 30
    else 31
  }

  /** A day of the proleptic Gregorian calendar, in any year. */
  predicate IsCalendarDate(dt: Date) {
    1 <= dt.month <= 12 && 1 <= dt.day <= DaysInMonth(dt.year, dt.month)
  }

  /** A day that datetime.date can hold. */
  predicate IsValid(dt: Date) {
    IsCalendarDate(dt) && MinYear <= dt.year <= MaxYear
  }

  /** Python's `<` on dates: year, then month, then day. */
  predicate Before(a: Date, b: Date) {
    a.year < b.year || (a.year == b.year && (a.month < b.month || (a.month == b.month && a.day < b.day)))
  }

  function DaysBeforeYear(y: int): int {
    365 * (y - 1) + (y - 1) / 4 - (y - 1) / 100 + (y - 1) / 400
  }

  function DaysBeforeMonth(y: int, m: int): int
    requires 1 <= m <= 12
  {
    (match m
     case 1 => 0 case 2 => 31 case 3 => 59 case 4 => 90 case 5 => 120 case 6 => 151
     case 7 => 181 case 8 => 212 case 9 => 243 case 10 => 273 case 11 => 304 case _ => 334)
    + (if m > 2 && IsLeap(y) then 1 else 0)
  }

  /** date.toordinal(): 1 for 0001-01-01, counting days. */
  function Ordinal(dt: Date): int
    requires IsCalendarDate(dt)
  {
    DaysBeforeYear(dt.year) + DaysBeforeMonth(dt.year, dt.month) + dt.day
  }

  const MaxOrdinal: int := 3652059

  lemma YearLength(y: int)
    ensures DaysBeforeYear(y + 1) == DaysBeforeYear(y) + if IsLeap(y) then 366 else 365
  {
    assert y / 4 - (y - 1) / 4 == if y % 4 == 0 then 1 else 0;
    assert y / 100 - (y - 1) / 100 == if y % 100 == 0 then 1 else 0;
    assert y / 400 - (y - 1) / 400 == if y % 400 == 0 then 1 else 0;
    assert y % 400 == 0 ==> y % 100 == 0 && y % 4 == 0;
    assert y % 100 == 0 ==> y % 4 == 0;
  }

  lemma {:induction false} DaysBeforeYearMonotone(a: int, b: int)
    requires a <= b
    ensures DaysBeforeYear(a) + 365 * (b - a) <= DaysBeforeYear(b)
    decreases b - a
  {
    if a < b {
      YearLength(a);
      DaysBeforeYearMonotone(a + 1, b);
    }
  }

  lemma OrdinalWithinYear(dt: Date)
    requires IsCalendarDate(dt)
    ensures DaysBeforeYear(dt.year) < Ordinal(dt) <= DaysBeforeYear(dt.year + 1)
  {
    YearLength(dt.year);
  }

  /** Day numbers order dates the way Python compares them. */
  lemma OrdinalOrder(a: Date, b: Date)
    requires IsCalendarDate(a) && IsCalendarDate(b)
    ensures Before(a, b) ==> Ordinal(a) < Ordinal(b)
  {
    if a.year < b.year {
      OrdinalWithinYear(a);
      OrdinalWithinYear(b);
      DaysBeforeYearMonotone(a.year + 1, b.year);
    }
  }

  /** Two days with the same day number are the same day. */
  lemma OrdinalInjective(a: Date, b: Date)
    requires IsCalendarDate(a) && IsCalendarDate(b) && Ordinal(a) == Ordinal(b)
    ensures a == b
  {
    OrdinalOrder(a, b);
    OrdinalOrder(b, a);
  }

  lemma BeforeIffOrdinal(a: Date, b: Date)
    requires IsCalendarDate(a) && IsCalendarDate(b)
    ensures Before(a, b) <==> Ordinal(a) < Ordinal(b)
  {
    OrdinalOrder(a, b);
    OrdinalOrder(b, a);
    if Ordinal(a) == Ordinal(b) { OrdinalInjective(a, b); }
  }

  /** The valid dates are exactly the day numbers 1 .. MaxOrdinal. */
  lemma ValidIffOrdinalInRange(dt: Date)
    requires IsCalendarDate(dt)
    ensures IsValid(dt) <==> 1 <= Ordinal(dt) <= MaxOrdinal
  {
    OrdinalWithinYear(dt);
    if dt.year < MinYear {
      DaysBeforeYearMonotone(dt.year + 1, MinYear);
    } else if dt.year > MaxYear {
      DaysBeforeYearMonotone(MaxYear + 1, dt.year);
    } else {
      DaysBeforeYearMonotone(MinYear, dt.year);
      DaysBeforeYearMonotone(dt.year + 1, MaxYear + 1);
    }
  }

  /** The days before a month and the month's own days make up the days
      before the next month; December ends the year. */
  lemma MonthLength(y: int, m: int)
    requires 1 <= m <= 12
    ensures m < 12 ==> DaysBeforeMonth(y, m + 1) == DaysBeforeMonth(y, m) + DaysInMonth(y, m)
    ensures m == 12 ==> DaysBeforeMonth(y, m) + DaysInMonth(y, m) == if IsLeap(y) then 366 else 365
  {
  }

  function NextDay(dt: Date): (r: Date)
    requires IsCalendarDate(dt)
    ensures IsCalendarDate(r) && Ordinal(r) == Ordinal(dt) + 1
  {
    YearLength(dt.year);
    MonthLength(dt.year, dt.month);
    if dt.day < DaysInMonth(dt.year, dt.month) then dt.(day := dt.day + 1)
    else if dt.month < 12 then Date(dt.year, dt.month + 1, 1)
    else Date(dt.year + 1, 1, 1)
  }

  function PrevDay(dt: Date): (r: Date)
    requires IsCalendarDate(dt)
    ensures IsCalendarDate(r) && Ordinal(r) == Ordinal(dt) - 1
  {
    YearLength(dt.year - 1);
    MonthLength(dt.year - 1, 12);
    MonthLength(dt.year, if dt.month > 1 then dt.month - 1 else 1);
    if dt.day > 1 then dt.(day := dt.day - 1)
    else if dt.month > 1 then Date(dt.year, dt.month - 1, DaysInMonth(dt.year, dt.month - 1))
    else Date(dt.year - 1, 12, 31)
  }

  /** The calendar day n days after dt (before it for negative n). */
  function AddDays(dt: Date, n: int): (r: Date)
    requires IsCalendarDate(dt)
    ensures IsCalendarDate(r) && Ordinal(r) == Ordinal(dt) + n
    decreases if n < 0 then -n else n
  {
    if n == 0 then dt
    else if n > 0 then AddDays(NextDay(dt), n - 1)
    else AddDays(PrevDay(dt), n + 1)
  }

  /** date + timedelta(days=n): None where Python raises OverflowError. */
  function PlusDays(dt: Date, n: int): (r: Option<Date>)
    requires IsValid(dt)
    ensures r.Some? <==> 1 <= Ordinal(dt) + n <= MaxOrdinal
    ensures r.Some? ==> IsValid(r.value) && Ordinal(r.value) == Ordinal(dt) + n
  {
    var d := AddDays(dt, n);
    ValidIffOrdinalInRange(d);
    if MinYear <= d.year <= MaxYear then Some(d) else None
  }

  /** (a - b).days */
  function DaysBetween(a: Date, b: Date): int
    requires IsCalendarDate(a) && IsCalendarDate(b)
  {
    Ordinal(a) - Ordinal(b)
  }

  /** Adding the difference of two days to the earlier one gives the later. */
  lemma AddDaysBetween(a: Date, b: Date)
    requires IsCalendarDate(a) && IsCalendarDate(b)
    ensures AddDays(b, DaysBetween(a, b)) == a
  {
    OrdinalInjective(AddDays(b, DaysBetween(a, b)), a);
  }

  function Min(a: int, b: int): int { if a <= b then a else b }

  /** date + relativedelta(months=n): the same day n calendar months later,
      clamped to the length of the target month; None exactly when the
      target month lies before January of year 1 or after December of 9999
      (date.replace raises ValueError). */
  function PlusMonths(dt: Date, n: int): (r: Option<Date>)
    requires IsValid(dt)
    ensures r.Some? ==> IsValid(r.value)
    ensures r.Some? ==> 12 * r.value.year + r.value.month == 12 * dt.year + dt.month + n
    ensures r.Some? <==> 12 * MinYear + 1 <= 12 * dt.year + dt.month + n <= 12 * MaxYear + 12
  {
    var index := 12 * dt.year + (dt.month - 1) + n;
    var y, m := index / 12, index % 12 + 1;
    if MinYear <= y <= MaxYear then Some(Date(y, m, Min(dt.day, DaysInMonth(y, m)))) else None
  }

  /** The day of the month is kept when the target month has it, else the
      month's last day is taken. */
  lemma PlusMonthsDay(dt: Date, n: int)
    requires IsValid(dt) && PlusMonths(dt, n).Some?
    ensures var r := PlusMonths(dt, n).value;
      (dt.day <= DaysInMonth(r.year, r.month) ==> r.day == dt.day)
      && (dt.day > DaysInMonth(r.year, r.month) ==> r.day == DaysInMonth(r.year, r.month))
  {
  }

  /** A forward (or null) month shift never lands before the start day. */
  lemma PlusMonthsNotBefore(dt: Date, n: int)
    requires IsValid(dt) && n >= 0 && PlusMonths(dt, n).Some?
    ensures !Before(PlusMonths(dt, n).value, dt)
  {
    var r := PlusMonths(dt, n).value;
    if r.year == dt.year && r.month == dt.month {
      assert n == 0;
    }
  }

  /** Shifting forward and back by whole months returns the start day
      whenever no clamping happened on the way. */
  lemma PlusMonthsRoundTrip(dt: Date, n: int)
    requires IsValid(dt) && PlusMonths(dt, n).Some?
    requires dt.day <= DaysInMonth(PlusMonths(dt, n).value.year, PlusMonths(dt, n).value.month)
    ensures PlusMonths(PlusMonths(dt, n).value, -n) == Some(dt)
  {
    var r := PlusMonths(dt, n).value;
    var back := 12 * r.year + (r.month - 1) - n;
    assert back == 12 * dt.year + (dt.month - 1);
    assert back / 12 == dt.year && back % 12 + 1 == dt.month;
  }

  // ---------------------------------------------------------------- parsing

  /** The %d field: 3[01] | [12]digit | 0[1-9] | [1-9] | space[1-9]. */
  function DayField(t: string): (r: Option<int>)
    ensures r.Some? ==> 1 <= r.value <= 31
  {
    if |t| == 1 && '1' <= t[0] <= '9' then Some(DigitValue(t[0]))
    else if |t| == 2 && (t[0] == '0' || t[0] == ' ') && '1' <= t[1] <= '9' then Some(DigitValue(t[1]))
    else if |t| == 2 && (t[0] == '1' || t[0] == '2') && IsDigit(t[1]) then Some(10 * DigitValue(t[0]) + DigitValue(t[1]))
    else if |t| == 2 && t[0] == '3' && (t[1] == '0' || t[1] == '1') then Some(30 + DigitValue(t[1]))
    else None
  }

  /** The %m field: 1[0-2] | 0[1-9] | [1-9]. */
  function MonthField(t: string): (r: Option<int>)
    ensures r.Some? ==> 1 <= r.value <= 12
  {
    if |t| == 1 && '1' <= t[0] <= '9' then Some(DigitValue(t[0]))
    else if |t| == 2 && t[0] == '0' && '1' <= t[1] <= '9' then Some(DigitValue(t[1]))
    else if |t| == 2 && t[0] == '1' && '0' <= t[1] <= '2' then Some(10 + DigitValue(t[1]))
    else None
  }

  /** The %Y field: exactly four digits. */
  function YearField(t: string): (r: Option<int>)
    ensures r.Some? ==> 0 <= r.value <= 9999
  {
    if |t| == 4 && IsDigit(t[0]) && IsDigit(t[1]) && IsDigit(t[2]) && IsDigit(t[3]) then
      Some(1000 * DigitValue(t[0]) + 100 * DigitValue(t[1]) + 10 * DigitValue(t[2]) + DigitValue(t[3]))
    else None
  }

  /** A one- or two-character field ended by '/', and the text after it. */
  function SlashField(s: string): Option<(string, string)> {
    if |s| >= 2 && s[1] == '/' then Some((s[..1], s[2..]))
    else if |s| >= 3 && s[2] == '/' then Some((s[..2], s[3..]))
    else None
  }

  /** valida_data: datetime.strptime(text, '%d/%m/%Y').date(), or None
      where strptime raises (the source returns '' then). The whole text
      must be consumed and the date must exist. */
  function ParseDate(s: string): (r: Option<Date>)
    ensures r.Some? ==> IsValid(r.value)
  {
    match SlashField(s)
    case None => None
    case Some((dayText, rest)) =>
      match SlashField(rest)
      case None => None
      case Some((monthText, yearText)) =>
        match (DayField(dayText), MonthField(monthText), YearField(yearText))
        case (Some(d), Some(m), Some(y)) =>
          if IsValid(Date(y, m, d)) then Some(Date(y, m, d)) else None
        case _ => None
  }

  // --------------------------------------------------------------- spelling

  /** How a day below 10 is written: "05", "5" or " 5". */
  datatype DayStyle = ZeroPadded | Bare | SpacePadded

  function TwoDigits(n: int): string
    requires 0 <= n <= 99
  {
    [DigitChar(n / 10), DigitChar(n % 10)]
  }

  function DayText(d: int, style: DayStyle): string
    requires 1 <= d <= 31
  {
    if d >= 10 then TwoDigits(d)
    else match style
      case ZeroPadded => TwoDigits(d)
      case Bare => [DigitChar(d)]
      case SpacePadded => [' ', DigitChar(d)]
  }

  function MonthText(m: int, padded: bool): string
    requires 1 <= m <= 12
  {
    if m >= 10 || padded then TwoDigits(m) else [DigitChar(m)]
  }

  function YearText(y: int): string
    requires 0 <= y <= 9999
  {
    [DigitChar(y / 1000), DigitChar(y / 100 % 10), DigitChar(y / 10 % 10), DigitChar(y % 10)]
  }

  /** One way of writing dt that strptime('%d/%m/%Y') accepts. */
  function Spelling(dt: Date, style: DayStyle, paddedMonth: bool): string
    requires IsValid(dt)
  {
    DayText(dt.day, style) + "/" + MonthText(dt.month, paddedMonth) + "/" + YearText(dt.year)
  }

  /** strftime('%d/%m/%Y'). */
  function FormatDate(dt: Date): string
    requires IsValid(dt)
  {
    Spelling(dt, ZeroPadded, true)
  }

  lemma DayTextParses(d: int, style: DayStyle)
    requires 1 <= d <= 31
    ensures DayField(DayText(d, style)) == Some(d)
    ensures 1 <= |DayText(d, style)| <= 2 && '/' !in DayText(d, style)
  {
  }

  lemma MonthTextParses(m: int, padded: bool)
    requires 1 <= m <= 12
    ensures MonthField(MonthText(m, padded)) == Some(m)
    ensures 1 <= |MonthText(m, padded)| <= 2 && '/' !in MonthText(m, padded)
  {
  }

  lemma YearTextParses(y: int)
    requires 0 <= y <= 9999
    ensures YearField(YearText(y)) == Some(y)
  {
    var q1, d0 := y / 10, y % 10;
    var q2, d1 := q1 / 10, q1 % 10;
    var q3, d2 := q2 / 10, q2 % 10;
    assert y / 100 == q2 && y / 1000 == q3;
    var t := YearText(y);
    assert DigitValue(t[0]) == q3 && DigitValue(t[1]) == d2 && DigitValue(t[2]) == d1 && DigitValue(t[3]) == d0;
  }

  lemma SlashFieldSplits(field: string, rest: string)
    requires 1 <= |field| <= 2 && '/' !in field
    ensures SlashField(field + "/" + rest) == Some((field, rest))
  {
    var s := field + "/" + rest;
    if |field| == 1 {
      assert s[1] == '/';
      assert s[..1] == field && s[2..] == rest;
    } else {
      assert s[1] == field[1] && s[1] != '/';
      assert s[2] == '/';
      assert s[..2] == field && s[3..] == rest;
    }
  }

  /** Every spelling of a valid date parses back to that date. */
  lemma ParseSpelling(dt: Date, style: DayStyle, paddedMonth: bool)
    requires IsValid(dt)
    ensures ParseDate(Spelling(dt, style, paddedMonth)) == Some(dt)
  {
    var dayText, monthText, yearText := DayText(dt.day, style), MonthText(dt.month, paddedMonth), YearText(dt.year);
    DayTextParses(dt.day, style);
    MonthTextParses(dt.month, paddedMonth);
    YearTextParses(dt.year);
    SlashFieldSplits(monthText, yearText);
    assert Spelling(dt, style, paddedMonth) == dayText + "/" + (monthText + "/" + yearText);
    SlashFieldSplits(dayText, monthText + "/" + yearText);
  }

  /** The dates strftime writes are read back unchanged. */
  lemma FormatRoundTrip(dt: Date)
    requires IsValid(dt)
    ensures ParseDate(FormatDate(dt)) == Some(dt)
  {
    ParseSpelling(dt, ZeroPadded, true);
  }

  lemma DayFieldSpelled(t: string) returns (style: DayStyle)
    requires DayField(t).Some?
    ensures t == DayText(DayField(t).value, style)
  {
    var d := DayField(t).value;
    if |t| == 1 {
      style := Bare;
    } else if t[0] == ' ' {
      style := SpacePadded;
    } else {
      style := ZeroPadded;
      assert d / 10 == DigitValue(t[0]) && d % 10 == DigitValue(t[1]);
    }
  }

  lemma MonthFieldSpelled(t: string) returns (padded: bool)
    requires MonthField(t).Some?
    ensures t == MonthText(MonthField(t).value, padded)
  {
    padded := |t| == 2;
  }

  lemma YearFieldSpelled(t: string)
    requires YearField(t).Some?
    ensures t == YearText(YearField(t).value)
  {
    var a, b, c, d := DigitValue(t[0]), DigitValue(t[1]), DigitValue(t[2]), DigitValue(t[3]);
    var y := 1000 * a + 100 * b + 10 * c + d;
    assert y / 1000 == a;
    assert y / 100 == 10 * a + b;
    assert y / 100 % 10 == b;
    assert y / 10 == 100 * a + 10 * b + c;
    assert y / 10 % 10 == c;
    assert y % 10 == d;
  }

  /** Only spellings of valid dates parse: together with ParseSpelling,
      ParseDate(s) == Some(dt) exactly when s spells the valid date dt. */
  lemma ParseOnlySpellings(s: string)
    requires ParseDate(s).Some?
    ensures exists style, paddedMonth :: s == Spelling(ParseDate(s).value, style, paddedMonth)
  {
    var dt := ParseDate(s).value;
    var (dayText, rest) := SlashField(s).value;
    var (monthText, yearText) := SlashField(rest).value;
    var style := DayFieldSpelled(dayText);
    var padded := MonthFieldSpelled(monthText);
    YearFieldSpelled(yearText);
    assert rest == monthText + "/" + yearText;
    assert s == dayText + "/" + rest;
    assert s == Spelling(dt, style, padded);
  }

  /** There is no 31 February, so its text is refused. */
  lemma NoThirtyFirstOfFebruary()
    ensures ParseDate("31/02/2024") == None
  {
    assert "31/02/2024" == TwoDigits(31) + "/" + "02/2024";
    SlashFieldSplits("31", "02/2024");
    SlashFieldSplits("02", "2024");
  }
}
