/** validar_datas: every listed date column of every row must hold a
    dd/mm/yyyy date; a missing value is an error only when asked for. */
module DateColumns {
  import opened Wrappers
  import opened Dates
  import opened Errors

  /** One row of df[cols_date + [col_to_report]]: cells[k] is the value of
      the k-th date column (None for NaN), report the reported column. */
  datatype DateRow = DateRow(cells: seq<Option<string>>, report: string)

  function BadDateMessage(column: string, value: string): string {
    "Data com problema: Coluna [ " + column + " ] Valor [ " + value + " ]"
  }

  function EmptyDateMessage(column: string): string {
    "Data com problema: Coluna [ " + column + " ]  Vazia"
  }

  /** The rows have a cell for every date column. */
  predicate Shaped(rows: seq<DateRow>, columns: seq<string>) {
    forall i :: 0 <= i < |rows| ==> |rows[i].cells| == |columns|
  }

  /** valida_data (lines 247-254) with its default format: True exactly when
      the text parses as a dd/mm/yyyy date. */
  function DateValid(s: string): (ok: bool)
    ensures ok <==> ParseDate(s).Some?
  {
    match ParseDate(s)
    case Some(_) => true
    case None => false
  }

  /** A cell the report must name. */
  predicate IsBadCell(cell: Option<string>, isNullError: bool) {
    match cell
    case Some(text) => !DateValid(text)
    case None => isNullError
  }

  /** How the report names a bad cell. */
  function CellMessage(cell: Option<string>, column: string): string {
    match cell
    case Some(text) => BadDateMessage(column, text)
    case None => EmptyDateMessage(column)
  }

  /** The entries one cell produces (lines 286-295): for a missing value an
      entry only when missing values are errors, for a present one an entry
      when valida_data rejects it. */
  function CellEntries(cell: Option<string>, column: string, report: string, isNullError: bool): (r: seq<Entry>)
    ensures |r| <= 1
    ensures r != [] <==> IsBadCell(cell, isNullError)
    ensures r != [] ==> r[0] == Entry(report, CellMessage(cell, column))
  {
    match cell
    case None => if isNullError then [Entry(report, EmptyDateMessage(column))] else []
    case Some(text) => if DateValid(text) then [] else [Entry(report, BadDateMessage(column, text))]
  }

  /** What the body of the inner loop does with one cell, given its column
      name and the row's reported value. */
  type CellRule = (Option<string>, string, string) -> seq<Entry>

  function RuleOf(isNullError: bool): CellRule {
    (cell: Option<string>, column: string, report: string) => CellEntries(cell, column, report, isNullError)
  }

  /** The entries of the first k date columns of one row, in column order. */
  function CellsEntries(row: DateRow, columns: seq<string>, k: nat, rule: CellRule): seq<Entry>
    requires k <= |columns| == |row.cells|
  {
    if k == 0 then []
    else CellsEntries(row, columns, k - 1, rule) + rule(row.cells[k - 1], columns[k - 1], row.report)
  }

  /** What validar_datas returns: rows in order, columns in order within a
      row. */
  function DateReport(rows: seq<DateRow>, columns: seq<string>, rule: CellRule): seq<Entry>
    requires Shaped(rows, columns)
  {
    if rows == [] then []
    else
      var row := rows[|rows| - 1];
      DateReport(rows[..|rows| - 1], columns, rule) + CellsEntries(row, columns, |columns|, rule)
  }

  /** validar_datas (lines 271-303), the save to disk left out. */
  method ValidateDates(rows: seq<DateRow>, columns: seq<string>, isNullError: bool) returns (entries: seq<Entry>)
    requires Shaped(rows, columns)
    ensures entries == DateReport(rows, columns, RuleOf(isNullError))
  {
    entries := ScanDates(rows, columns, RuleOf(isNullError));
  }

  /** The loop of lines 283-296 over the rows. */
  method ScanDates(rows: seq<DateRow>, columns: seq<string>, rule: CellRule) returns (entries: seq<Entry>)
    requires Shaped(rows, columns)
    ensures entries == DateReport(rows, columns, rule)
  {
    entries := [];
    var i := 0;
    while i < |rows|
      invariant 0 <= i <= |rows|
      invariant entries == DateReport(rows[..i], columns, rule)
    {
      var found := CheckRow(rows[i], columns, rule);
      entries := entries + found;
      assert rows[..i + 1][..i] == rows[..i];
      i := i + 1;
    }
    assert rows[..i] == rows;
  }

  /** The inner loop of lines 285-294 over the date columns of one row. */
  method CheckRow(row: DateRow, columns: seq<string>, rule: CellRule) returns (found: seq<Entry>)
    requires |row.cells| == |columns|
    ensures found == CellsEntries(row, columns, |columns|, rule)
  {
    found := [];
    var k := 0;
    while k < |columns|
      invariant 0 <= k <= |columns|
      invariant found == CellsEntries(row, columns, k, rule)
    {
      found := found + rule(row.cells[k], columns[k], row.report);
      k := k + 1;
    }
  }

  /** Each entry of one row comes from one of its cells. */
  lemma {:induction false} CellsEntriesSound(row: DateRow, columns: seq<string>, k: nat, rule: CellRule, e: Entry)
    requires k <= |columns| == |row.cells|
    requires e in CellsEntries(row, columns, k, rule)
    ensures exists c :: 0 <= c < k && e in rule(row.cells[c], columns[c], row.report)
  {
    var c := k - 1;
    if e in CellsEntries(row, columns, c, rule) {
      CellsEntriesSound(row, columns, c, rule, e);
    }
  }

  /** Each cell's entries are among those of its row. */
  lemma {:induction false} CellsEntriesComplete(row: DateRow, columns: seq<string>, k: nat, rule: CellRule, c: nat, e: Entry)
    requires k <= |columns| == |row.cells|
    requires c < k && e in rule(row.cells[c], columns[c], row.report)
    ensures e in CellsEntries(row, columns, k, rule)
  {
    if c < k - 1 {
      CellsEntriesComplete(row, columns, k - 1, rule, c, e);
    }
  }

  /** Every entry of the report comes from some cell of some row. */
  lemma {:induction false} DateReportSound(rows: seq<DateRow>, columns: seq<string>, rule: CellRule, e: Entry)
    requires Shaped(rows, columns)
    requires e in DateReport(rows, columns, rule)
    ensures exists i, c :: 0 <= i < |rows| && 0 <= c < |columns| && e in rule(rows[i].cells[c], columns[c], rows[i].report)
  {
    var n := |rows| - 1;
    if e in DateReport(rows[..n], columns, rule) {
      DateReportSound(rows[..n], columns, rule, e);
      var i, c :| 0 <= i < n && 0 <= c < |columns| && e in rule(rows[..n][i].cells[c], columns[c], rows[..n][i].report);
      assert rows[..n][i] == rows[i];
    } else {
      CellsEntriesSound(rows[n], columns, |columns|, rule, e);
    }
  }

  /** Every entry of every cell is in the report. */
  lemma {:induction false} DateReportComplete(rows: seq<DateRow>, columns: seq<string>, rule: CellRule, i: nat, c: nat, e: Entry)
    requires Shaped(rows, columns)
    requires i < |rows| && c < |columns| && e in rule(rows[i].cells[c], columns[c], rows[i].report)
    ensures e in DateReport(rows, columns, rule)
  {
    var n := |rows| - 1;
    assert Shaped(rows[..n], columns);
    assert DateReport(rows, columns, rule)
      == DateReport(rows[..n], columns, rule) + CellsEntries(rows[n], columns, |columns|, rule);
    if i < n {
      assert rows[..n][i] == rows[i];
      DateReportComplete(rows[..n], columns, rule, i, c, e);
    } else {
      CellsEntriesComplete(rows[n], columns, |columns|, rule, c, e);
    }
  }

  /** validar_datas reports exactly the bad cells: an entry is in the report
      if and only if it names a row and a bad cell of it, with the message
      the code writes for that cell. */
  lemma ReportIffBadCell(rows: seq<DateRow>, columns: seq<string>, isNullError: bool, e: Entry)
    requires Shaped(rows, columns)
    ensures e in DateReport(rows, columns, RuleOf(isNullError))
        <==> exists i, c :: 0 <= i < |rows| && 0 <= c < |columns| && IsBadCell(rows[i].cells[c], isNullError)
               && e == Entry(rows[i].report, CellMessage(rows[i].cells[c], columns[c]))
  {
    var rule := RuleOf(isNullError);
    if e in DateReport(rows, columns, rule) {
      DateReportSound(rows, columns, rule, e);
      var i, c :| 0 <= i < |rows| && 0 <= c < |columns| && e in rule(rows[i].cells[c], columns[c], rows[i].report);
      CellEntryNamesCell(rows[i].cells[c], columns[c], rows[i].report, isNullError, e);
    }
    if exists i, c :: 0 <= i < |rows| && 0 <= c < |columns| && IsBadCell(rows[i].cells[c], isNullError)
         && e == Entry(rows[i].report, CellMessage(rows[i].cells[c], columns[c])) {
      var i, c :| 0 <= i < |rows| && 0 <= c < |columns| && IsBadCell(rows[i].cells[c], isNullError)
         && e == Entry(rows[i].report, CellMessage(rows[i].cells[c], columns[c]));
      CellEntryNamesCell(rows[i].cells[c], columns[c], rows[i].report, isNullError, e);
      DateReportComplete(rows, columns, rule, i, c, e);
    }
  }

  /** An entry of one cell is the one entry of a bad cell. */
  lemma CellEntryNamesCell(cell: Option<string>, column: string, report: string, isNullError: bool, e: Entry)
    ensures e in RuleOf(isNullError)(cell, column, report)
        <==> IsBadCell(cell, isNullError) && e == Entry(report, CellMessage(cell, column))
  {
    var r := CellEntries(cell, column, report, isNullError);
    assert RuleOf(isNullError)(cell, column, report) == r;
    if r != [] {
      assert r == [r[0]];
    }
  }

  /** No row yields more entries than it has date columns. */
  lemma {:induction false} DateReportLength(rows: seq<DateRow>, columns: seq<string>, isNullError: bool)
    requires Shaped(rows, columns)
    ensures |DateReport(rows, columns, RuleOf(isNullError))| <= |rows| * |columns|
  {
    if rows != [] {
      var n := |rows| - 1;
      assert Shaped(rows[..n], columns);
      DateReportLength(rows[..n], columns, isNullError);
      CellsEntriesLength(rows[n], columns, |columns|, isNullError);
      MulStep(n, |columns|);
    }
  }

  lemma MulStep(n: nat, c: nat)
    ensures n * c + c == (n + 1) * c
  {
  }

  lemma {:induction false} CellsEntriesLength(row: DateRow, columns: seq<string>, k: nat, isNullError: bool)
    requires k <= |columns| == |row.cells|
    ensures |CellsEntries(row, columns, k, RuleOf(isNullError))| <= k
  {
    if k > 0 {
      CellsEntriesLength(row, columns, k - 1, isNullError);
      assert |RuleOf(isNullError)(row.cells[k - 1], columns[k - 1], row.report)| <= 1;
    }
  }

  /** A date written as dd/mm/yyyy (or with a bare or space-padded day, or a
      bare month) is never reported. */
  lemma SpelledDateAccepted(dt: Date, style: DayStyle, paddedMonth: bool, column: string, report: string, isNullError: bool)
    requires IsValid(dt)
    ensures CellEntries(Some(Spelling(dt, style, paddedMonth)), column, report, isNullError) == []
  {
    ParseSpelling(dt, style, paddedMonth);
  }
}
