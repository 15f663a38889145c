/** checar_validade: for each row, read the validity column as "N dias",
    "N meses" or an explicit date, work out the last valid day from the
    issue date and report the rows expired at a reference date. */
module Expiration {
  import opened Wrappers
  import opened Text
  import opened Dates
  import opened Sorting
  import opened Errors

  /** The three columns the check reads from a row: validity, issue date
      and the column echoed in the report. */
  datatype ValidityRow = ValidityRow(validity: Option<string>, issued: Option<string>, report: string)

  /** A date inside 1..9999, the only kind a Python date object holds. */
  type ValidDate = d: Date | IsValid(d) witness Date(1, 1, 1)

  /** What the variable data_val holds when a row starts: nothing yet, the
      '' of a validity text that failed to parse, or a date. The loop never
      resets it, so a row can pick up the value an earlier row left. */
  datatype LastValidity = Unbound | NotADate | Was(date: ValidDate)

  /** The fate of one row: no entry, one entry, or an exception that ends
      the whole call. */
  datatype Verdict = Skip | Report(message: string) | Crash

  /** The result of the whole call. */
  datatype Outcome = Raises | Reports(entries: seq<Entry>)

  function NullValidityMessage(column: string): string {
    "Validade com problema: Coluna [ " + column + " ] nula"
  }

  const BothEmptyMessage: string := "Datas de Emissão e de Validade vazias"

  function UnreadableCountMessage(column: string): string {
    "Validade com problema: Coluna [ " + column + " ] Valor [ <vazio> ]"
  }

  function UnreadableDateMessage(column: string, text: string): string {
    "Validade com problema: Coluna [ " + column + " ] Valor [ " + text + "]"
  }

  function ExpiredMessage(until: ValidDate): string {
    "Validade Expirada: Válida até [ " + FormatDate(until) + " ]"
  }

  /** The last valid day and its comparison with the reference date
      (lines 401-409). Without an issue date, data_val from this or an
      earlier row is used: unbound raises NameError, '' makes the
      comparison raise TypeError. */
  function Expiry(issued: Option<ValidDate>, last: LastValidity, days: int, base: Date): Verdict {
    var until :=
      if issued.Some? then PlusDays(issued.value, days)
      else if last.Was? then Some(last.date)
      else None;
    match until
    case None => Crash
    case Some(u) => if Before(u, base) then Report(ExpiredMessage(u)) else Skip
  }

  /** The validity text as the loop reads it: NaN counts as ''. */
  function ValidityText(row: ValidityRow): string {
    Lower(Strip(row.validity.GetOr("")))
  }

  /** The issue date text as the loop reads it: NaN counts as ''. */
  function IssuedText(row: ValidityRow): string {
    Strip(row.issued.GetOr(""))
  }

  /** One pass of the loop body (lines 346-409) on one row; the second
      component is data_val after the row. */
  function RowStep(row: ValidityRow, column: string, isNullError: bool, base: Date, last: LastValidity)
    : (Verdict, LastValidity)
  {
    if row.validity.GetOr("") == "" && isNullError then (Report(NullValidityMessage(column)), last)
    else
      var v := ValidityText(row);
      var e := IssuedText(row);
      if e == "" && v == "" then (Report(BothEmptyMessage), last)
      else if Contains(v, "dias") then DaysBranch(v, e, column, base, last)
      else if Contains(v, "meses") then MonthsBranch(v, e, column, base, last)
      else if e != "" then DateBranch(v, e, column, base, last)
      else (Expiry(None, last, 0, base), last)
  }

  /** A validity of "N dias" (lines 371-377): N is read from the first
      three characters. */
  function DaysBranch(v: string, e: string, column: string, base: Date, last: LastValidity)
    : (Verdict, LastValidity)
  {
    match ParseInt(Take(v, 3))
    case None => (Report(UnreadableCountMessage(column)), last)
    case Some(days) => (Expiry(ParseDate(e), last, days, base), last)
  }

  /** A validity of "N meses" (lines 378-387): N is read from the first two
      characters; the shifted date becomes data_val. */
  function MonthsBranch(v: string, e: string, column: string, base: Date, last: LastValidity)
    : (Verdict, LastValidity)
  {
    match ParseInt(Take(v, 2))
    case None => (Report(UnreadableCountMessage(column)), last)
    case Some(months) =>
      match ParseDate(e)
      case None => (Crash, last)
      case Some(issued) =>
        match PlusMonths(issued, months)
        case None => (Crash, last)
        case Some(validity) => (ValidUntil(issued, validity, base), Was(validity))
  }

  /** An explicit validity date (lines 388-398), with an issue date text
      present; the parsed date, or '', becomes data_val. */
  function DateBranch(v: string, e: string, column: string, base: Date, last: LastValidity)
    : (Verdict, LastValidity)
  {
    if v == "" then (Skip, last)
    else
      match ParseDate(v)
      case None => (Report(UnreadableDateMessage(column, v)), NotADate)
      case Some(validity) =>
        match ParseDate(e)
        case None => (Crash, Was(validity))
        case Some(issued) => (ValidUntil(issued, validity, base), Was(validity))
  }

  /** abs((data_val - data_emi).days) days counted from the issue date. */
  function ValidUntil(issued: ValidDate, validity: ValidDate, base: Date): Verdict {
    var days := DaysBetween(validity, issued);
    Expiry(Some(issued), Was(validity), if days < 0 then -days else days, base)
  }

  /** The loop body as a value, for the fold below. */
  type Step = (ValidityRow, LastValidity) -> (Verdict, LastValidity)

  function StepAt(column: string, isNullError: bool, base: Date): Step {
    (row, last) => RowStep(row, column, isNullError, base, last)
  }

  /** The loop over all rows in order, threading data_val; None when a row
      raises. */
  function ScanRows(rows: seq<ValidityRow>, step: Step, last: LastValidity): Option<seq<Entry>>
    decreases |rows|
  {
    if rows == [] then Some([])
    else
      var (verdict, next) := step(rows[0], last);
      match verdict
      case Crash => None
      case Skip => ScanRows(rows[1..], step, next)
      case Report(m) => Prepend([Entry(rows[0].report, m)], ScanRows(rows[1..], step, next))
  }

  function Prepend(entries: seq<Entry>, rest: Option<seq<Entry>>): Option<seq<Entry>> {
    match rest
    case None => None
    case Some(r) => Some(entries + r)
  }

  lemma PrependNil(rest: Option<seq<Entry>>)
    ensures Prepend([], rest) == rest
  {
    if rest.Some? {
      assert [] + rest.value == rest.value;
    }
  }

  lemma PrependAssoc(a: seq<Entry>, b: seq<Entry>, rest: Option<seq<Entry>>)
    ensures Prepend(a, Prepend(b, rest)) == Prepend(a + b, rest)
  {
    if rest.Some? {
      assert a + (b + rest.value) == (a + b) + rest.value;
    }
  }

  /** Every entry of a scan names the report column of one of its rows, and
      there is at most one entry per row. */
  lemma {:induction false} ScanRowsEntries(rows: seq<ValidityRow>, step: Step, last: LastValidity)
    ensures var r := ScanRows(rows, step, last);
      r.Some? ==> (|r.value| <= |rows|
        && forall e :: e in r.value ==> exists k :: 0 <= k < |rows| && e.url == rows[k].report)
  {
    if rows != [] {
      var (verdict, next) := step(rows[0], last);
      ScanRowsEntries(rows[1..], step, next);
      var rest := ScanRows(rows[1..], step, next);
      if rest.Some? {
        forall e | e in rest.value ensures exists k :: 0 <= k < |rows| && e.url == rows[k].report {
          var k :| 0 <= k < |rows| - 1 && e.url == rows[1..][k].report;
          assert e.url == rows[k + 1].report;
        }
      }
    }
  }

  /** The loop of lines 345-409 over any row step: the entries in row order,
      or `crashed` when a row raised. */
  method RunRows(rows: seq<ValidityRow>, step: Step) returns (entries: seq<Entry>, crashed: bool)
    ensures ScanRows(rows, step, Unbound) == if crashed then None else Some(entries)
  {
    entries := [];
    var last: LastValidity := Unbound;
    var i := 0;
    assert rows[0..] == rows;
    PrependNil(ScanRows(rows, step, Unbound));
    while i < |rows|
      invariant 0 <= i <= |rows|
      invariant ScanRows(rows, step, Unbound) == Prepend(entries, ScanRows(rows[i..], step, last))
    {
      assert rows[i..][0] == rows[i] && rows[i..][1..] == rows[i + 1..];
      var (verdict, next) := step(rows[i], last);
      match verdict {
        case Crash =>
          return entries, true;
        case Skip =>
        case Report(m) =>
          PrependAssoc(entries, [Entry(rows[i].report, m)], ScanRows(rows[i + 1..], step, next));
          entries := entries + [Entry(rows[i].report, m)];
      }
      last := next;
      i := i + 1;
    }
    assert rows[i..] == [];
    assert entries + [] == entries;
    crashed := false;
  }

  /** The order of sort_values('Mensagem'). */
  predicate MessageLe(a: Entry, b: Entry) {
    StrLe(a.message, b.message)
  }

  lemma MessageLeTotal()
    ensures TotalPreorder(MessageLe)
  {
    forall a: Entry, b: Entry ensures MessageLe(a, b) || MessageLe(b, a) {
      StrLeTotal(a.message, b.message);
    }
    forall a: Entry, b: Entry, c: Entry | MessageLe(a, b) && MessageLe(b, c) ensures MessageLe(a, c) {
      StrLeTransitive(a.message, b.message, c.message);
    }
  }

  /** The reference date: `today` when no limit date is given, else the
      parsed limit date (None when it does not parse). */
  function ReferenceDate(limitDate: string, today: Date): Option<Date> {
    if limitDate == "" then Some(today) else ParseDate(limitDate)
  }

  /** What checar_validade returns. */
  function ValidityReport(rows: seq<ValidityRow>, column: string, isNullError: bool, limitDate: string, today: Date)
    : Outcome
  {
    match ReferenceDate(limitDate, today)
    case None => Reports([])
    case Some(base) => SortedScan(rows, StepAt(column, isNullError, base))
  }

  /** The scan's entries sorted by message, or Raises. */
  function SortedScan(rows: seq<ValidityRow>, step: Step): Outcome {
    match ScanRows(rows, step, Unbound)
    case None => Raises
    case Some(entries) => Reports(SortBy(entries, MessageLe))
  }

  /** checar_validade, with today's date passed in. */
  method CheckValidity(rows: seq<ValidityRow>, column: string, isNullError: bool, limitDate: string, today: Date)
    returns (result: Outcome)
    ensures result == ValidityReport(rows, column, isNullError, limitDate, today)
    ensures result.Reports? ==> SortedBy(result.entries, MessageLe) && |result.entries| <= |rows|
    ensures result.Reports? ==> forall e :: e in result.entries ==> exists i :: 0 <= i < |rows| && e.url == rows[i].report
  {
    var base: Option<Date>;
    if limitDate == "" {
      base := Some(today);
    } else {
      base := ParseDate(limitDate);
    }
    if base.None? {
      return Reports([]);
    }
    result := ReportRows(rows, StepAt(column, isNullError, base.value));
  }

  /** The loop followed by the sort of line 411. The report names only rows
      of the input, at most one entry per row, in message order. */
  method ReportRows(rows: seq<ValidityRow>, step: Step) returns (result: Outcome)
    ensures result == SortedScan(rows, step)
    ensures result.Reports? ==> SortedBy(result.entries, MessageLe) && |result.entries| <= |rows|
    ensures result.Reports? ==> forall e :: e in result.entries ==> exists i :: 0 <= i < |rows| && e.url == rows[i].report
  {
    var entries, crashed := RunRows(rows, step);
    if crashed {
      return Raises;
    }
    ScanRowsEntries(rows, step, Unbound);
    MessageLeTotal();
    SortBySorted(entries, MessageLe);
    result := Reports(SortBy(entries, MessageLe));
    forall e | e in result.entries ensures exists k :: 0 <= k < |rows| && e.url == rows[k].report {
      assert e in multiset(SortBy(entries, MessageLe));
    }
  }

  /** An unreadable limit date ends the check before any row is read. */
  lemma UnreadableLimitDate(rows: seq<ValidityRow>, column: string, isNullError: bool, limitDate: string, today: Date)
    requires limitDate != "" && ParseDate(limitDate).None?
    ensures ValidityReport(rows, column, isNullError, limitDate, today) == Reports([])
  {
  }

  /** A row without a usable validity value is reported when that is an
      error, whatever else it holds; data_val is left alone. */
  lemma NullValidityReported(row: ValidityRow, column: string, base: Date, last: LastValidity)
    requires row.validity.None? || row.validity == Some("")
    ensures RowStep(row, column, true, base, last) == (Report(NullValidityMessage(column)), last)
  {
  }

  /** Both texts empty (lines 363-366): reported, data_val untouched. */
  lemma BothEmptyReported(row: ValidityRow, column: string, isNullError: bool, base: Date, last: LastValidity)
    requires !(row.validity.GetOr("") == "" && isNullError)
    requires ValidityText(row) == "" && IssuedText(row) == ""
    ensures RowStep(row, column, isNullError, base, last) == (Report(BothEmptyMessage), last)
  {
  }

  /** A day or month count that int() cannot read (lines 372-385) is
      reported, data_val untouched. */
  lemma UnreadableCountReported(row: ValidityRow, column: string, isNullError: bool, base: Date, last: LastValidity)
    requires !(row.validity.GetOr("") == "" && isNullError)
    requires var v := ValidityText(row);
      (Contains(v, "dias") && ParseInt(Take(v, 3)).None?)
      || (!Contains(v, "dias") && Contains(v, "meses") && ParseInt(Take(v, 2)).None?)
    ensures RowStep(row, column, isNullError, base, last) == (Report(UnreadableCountMessage(column)), last)
  {
  }

  /** A blank validity next to an issue date is no error (lines 389-391). */
  lemma BlankValiditySkipped(row: ValidityRow, column: string, isNullError: bool, base: Date, last: LastValidity)
    requires !(row.validity.GetOr("") == "" && isNullError)
    requires ValidityText(row) == "" && IssuedText(row) != ""
    ensures RowStep(row, column, isNullError, base, last) == (Skip, last)
  {
  }

  /** An explicit validity that is not a date (lines 392-397) is reported
      with the text read, and data_val becomes ''. */
  lemma UnreadableValidityReported(row: ValidityRow, column: string, isNullError: bool, base: Date, last: LastValidity)
    requires !(row.validity.GetOr("") == "" && isNullError)
    requires var v := ValidityText(row);
      v != "" && !Contains(v, "dias") && !Contains(v, "meses") && ParseDate(v).None?
    requires IssuedText(row) != ""
    ensures RowStep(row, column, isNullError, base, last)
      == (Report(UnreadableDateMessage(column, ValidityText(row))), NotADate)
  {
  }

  /** "N dias" with a readable issue date d: the row is reported expired
      exactly when d + N days falls before the reference date, and the call
      raises when d + N days leaves the calendar. A text holding both "dias"
      and "meses" counts as days. */
  lemma DaysVerdict(row: ValidityRow, column: string, isNullError: bool, base: Date, last: LastValidity, n: int, d: Date)
    requires IsValid(base)
    requires !(row.validity.GetOr("") == "" && isNullError)
    requires Contains(ValidityText(row), "dias") && ParseInt(Take(ValidityText(row), 3)) == Some(n)
    requires ParseDate(IssuedText(row)) == Some(d)
    ensures var (verdict, next) := RowStep(row, column, isNullError, base, last);
      next == last
      && (verdict.Crash? <==> !(1 <= Ordinal(d) + n <= MaxOrdinal))
      && (verdict.Report? <==> 1 <= Ordinal(d) + n < Ordinal(base))
      && (verdict.Report? ==> PlusDays(d, n).Some? && verdict == Report(ExpiredMessage(PlusDays(d, n).value)))
  {
    var v, e := ValidityText(row), IssuedText(row);
    assert e != "";
    assert RowStep(row, column, isNullError, base, last) == DaysBranch(v, e, column, base, last);
    assert DaysBranch(v, e, column, base, last) == (Expiry(Some(d), last, n, base), last);
    ValidIffOrdinalInRange(base);
    match PlusDays(d, n)
    case None =>
    case Some(u) =>
      BeforeIffOrdinal(u, base);
      assert Expiry(Some(d), last, n, base).Report? <==> Ordinal(u) < Ordinal(base);
  }

  /** "N meses" (N >= 0) with a readable issue date d: the last valid day is
      the same day N months later, clamped to the month's length; the row
      is reported exactly when that day is before the reference date, and
      it becomes data_val. */
  lemma MonthsVerdict(row: ValidityRow, column: string, isNullError: bool, base: Date, last: LastValidity, n: nat, d: Date)
    requires !(row.validity.GetOr("") == "" && isNullError)
    requires !Contains(ValidityText(row), "dias") && Contains(ValidityText(row), "meses")
    requires ParseInt(Take(ValidityText(row), 2)) == Some(n)
    requires ParseDate(IssuedText(row)) == Some(d) && PlusMonths(d, n).Some?
    ensures var u := PlusMonths(d, n).value;
      RowStep(row, column, isNullError, base, last)
      == (if Before(u, base) then Report(ExpiredMessage(u)) else Skip, Was(u))
  {
    var v, e := ValidityText(row), IssuedText(row);
    assert e != "";
    assert RowStep(row, column, isNullError, base, last) == MonthsBranch(v, e, column, base, last);
    var u := PlusMonths(d, n).value;
    assert MonthsBranch(v, e, column, base, last) == (ValidUntil(d, u, base), Was(u));
    PlusMonthsNotBefore(d, n);
    ForwardValidUntil(d, u, base);
  }

  /** A validity date not before the issue date is itself the last valid
      day. */
  lemma ForwardValidUntil(issued: ValidDate, validity: ValidDate, base: Date)
    requires !Before(validity, issued)
    ensures ValidUntil(issued, validity, base)
            == if Before(validity, base) then Report(ExpiredMessage(validity)) else Skip
  {
    BeforeIffOrdinal(validity, issued);
    ShiftByDifference(issued, validity);
  }

  /** An explicit validity date that is not before the issue date is the
      last valid day itself. */
  lemma DateVerdict(row: ValidityRow, column: string, isNullError: bool, base: Date, last: LastValidity, val: Date, d: Date)
    requires !(row.validity.GetOr("") == "" && isNullError)
    requires !Contains(ValidityText(row), "dias") && !Contains(ValidityText(row), "meses")
    requires ParseDate(ValidityText(row)) == Some(val) && ParseDate(IssuedText(row)) == Some(d)
    requires !Before(val, d)
    ensures RowStep(row, column, isNullError, base, last)
            == (if Before(val, base) then Report(ExpiredMessage(val)) else Skip, Was(val))
  {
    var v, e := ValidityText(row), IssuedText(row);
    assert e != "" && v != "";
    assert RowStep(row, column, isNullError, base, last) == DateBranch(v, e, column, base, last);
    assert DateBranch(v, e, column, base, last) == (ValidUntil(d, val, base), Was(val));
    ForwardValidUntil(d, val, base);
  }

  /** An explicit validity date before the issue date is mirrored: the
      code takes the absolute number of days between the two and counts
      it forward from the issue date. */
  lemma MirroredDateVerdict(row: ValidityRow, column: string, isNullError: bool, base: Date, last: LastValidity, val: Date, d: Date)
    requires IsValid(base)
    requires !(row.validity.GetOr("") == "" && isNullError)
    requires !Contains(ValidityText(row), "dias") && !Contains(ValidityText(row), "meses")
    requires ParseDate(ValidityText(row)) == Some(val) && ParseDate(IssuedText(row)) == Some(d)
    requires Before(val, d)
    ensures RowStep(row, column, isNullError, base, last).1 == Was(val)
    ensures var verdict := RowStep(row, column, isNullError, base, last).0;
      (verdict.Crash? <==> 2 * Ordinal(d) - Ordinal(val) > MaxOrdinal)
      && (verdict.Report? <==> 2 * Ordinal(d) - Ordinal(val) < Ordinal(base))
      && (verdict.Report? ==> var until := PlusDays(d, Ordinal(d) - Ordinal(val));
            until.Some? && verdict == Report(ExpiredMessage(until.value)))
  {
    var v, e := ValidityText(row), IssuedText(row);
    assert e != "" && v != "";
    assert RowStep(row, column, isNullError, base, last) == DateBranch(v, e, column, base, last);
    assert DateBranch(v, e, column, base, last) == (ValidUntil(d, val, base), Was(val));
    MirroredValidUntil(d, val, base);
  }

  lemma MirroredValidUntil(issued: ValidDate, validity: ValidDate, base: Date)
    requires IsValid(base) && Before(validity, issued)
    ensures var verdict := ValidUntil(issued, validity, base);
      (verdict.Crash? <==> 2 * Ordinal(issued) - Ordinal(validity) > MaxOrdinal)
      && (verdict.Report? <==> 2 * Ordinal(issued) - Ordinal(validity) < Ordinal(base))
      && (verdict.Report? ==> var until := PlusDays(issued, Ordinal(issued) - Ordinal(validity));
            until.Some? && verdict == Report(ExpiredMessage(until.value)))
  {
    BeforeIffOrdinal(validity, issued);
    ValidIffOrdinalInRange(base);
    ValidIffOrdinalInRange(issued);
    ValidIffOrdinalInRange(validity);
    var days := Ordinal(issued) - Ordinal(validity);
    assert ValidUntil(issued, validity, base) == Expiry(Some(issued), Was(validity), days, base);
    match PlusDays(issued, days)
    case None =>
    case Some(u) =>
      BeforeIffOrdinal(u, base);
  }

  /** A row with a validity text but no issue date, other than a count of
      days or months, falls back on data_val: it raises when no earlier row
      left a date, and otherwise compares that stale date. */
  lemma StaleVerdict(row: ValidityRow, column: string, isNullError: bool, base: Date, last: LastValidity)
    requires !(row.validity.GetOr("") == "" && isNullError)
    requires !Contains(ValidityText(row), "dias") && !Contains(ValidityText(row), "meses")
    requires ValidityText(row) != "" && IssuedText(row) == ""
    ensures RowStep(row, column, isNullError, base, last)
            == (if last.Was? then (if Before(last.date, base) then Report(ExpiredMessage(last.date)) else Skip)
                else Crash, last)
  {
  }

  /** Counting |b - a| days forward from a reaches b when b is not before a. */
  lemma ShiftByDifference(a: ValidDate, b: ValidDate)
    requires Ordinal(a) <= Ordinal(b)
    ensures var days := DaysBetween(b, a);
      PlusDays(a, if days < 0 then -days else days) == Some(b)
  {
    ValidIffOrdinalInRange(b);
    OrdinalInjective(PlusDays(a, DaysBetween(b, a)).value, b);
  }
}
