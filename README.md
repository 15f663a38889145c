# Certificate audit rules of validacoes.py, in Dafny

validacoes.py audits a table of certificates ("certidões") about suppliers.
Each row holds a tax ID (CPF/CNPJ), a name (Nome/Razão Social), a
classification, a result, an issue date and a validity. The rows arrive as
Positiva, Negativa or Pos./Neg. Each audit rule returns a report of error
messages, keyed by the value of one column (usually the Url).

This project models the rules of that audit and what they promise:

- **valida_data and validar_datas.** A date cell must be `dd/mm/yyyy`,
  read the way `datetime.strptime` reads it. A missing cell is an error
  only when asked.
- **monta_processos and validar_duplicidade.** Rows equal on the key
  columns are candidate duplicates. A candidate stays a duplicate only if
  its group-mates also have the same process numbers on their positive
  filings. Each duplicate group is numbered from 1.
- **checar_validade.** The validity is "N dias", "N meses" or an explicit
  date. From it and the issue date the last valid day is computed. Rows
  expired at the reference date are reported, sorted by message.
- **validar_cnpj_razao.** The names on the certificates of one tax ID must
  agree, up to a similarity threshold. A certificate without a tax ID gets
  one written into the table, in place, when its name points to exactly
  one tax ID. Otherwise it is reported.
- **The report helpers:**
  - classif_result builds the short column headings ("CND " + "P " gives
    "CND P "). The first four characters are taken as they are, so "Cert" +
    "P " gives "CertP ", which holds no " P " marker for totaliza_np;
  - totaliza_np adds up the columns of one result kind;
  - mask_map gives each cell of the heat map its colour code;
  - get_supplier_score computes a supplier's score;
  - the weight-column choice of suppliers_score is also modelled.

The model follows the code as written. Three places need care:

- The reconciler does not sort the rows or scan runs of equal tax IDs.
  - Every row that has a tax ID is compared with every distinct name
    filed under that tax ID.
  - Every row without one is resolved by itself. Only that row's own cell
    is written.
  - When the single candidate was found through similar names rather than
    the same name, its entry carries an empty reference url.
- The state that checar_validade carries from one row to the next is
  modelled:
  - `data_val` keeps the value an earlier row left in it;
  - when the code would raise instead (NameError, TypeError or
    OverflowError), the model gives a `Raises` outcome.
- Duplicate groups are numbered from 1, as `grupo` starts at 1.

Layout:

| file | module | holds |
|---|---|---|
| `wrappers.dfy` | `Wrappers` | `Option`; `None` is pandas' NaN |
| `errors.dfy` | `Errors` | the `(Url, Mensagem)` report entry |
| `text.dfy` | `Text` | `strip`, `lower`, `in` on strings, `<=` on strings, `int()` |
| `sorting.dfy` | `Sorting` | a stable sort by a total preorder, sortedness and uniqueness of the sorted order |
| `seqs.dfy` | `Seqs` | `unique()`, filtering |
| `dates.dfy` | `Dates` | the proleptic Gregorian calendar, `+ timedelta`, `+ relativedelta(months=)`, `strptime('%d/%m/%Y')`, `strftime` |
| `date_columns.dfy` | `DateColumns` | valida_data, validar_datas |
| `duplicates.dfy` | `Duplicates` | monta_processos, validar_duplicidade |
| `expiration.dfy` | `Expiration` | checar_validade |
| `reconcile.dfy` | `Reconcile` | validar_cnpj_razao, on an `array` that it updates in place |
| `report.dfy` | `Report` | classif_result, totaliza_np, mask_map (on an `array2`), get_supplier_score, the weight index |

## Model

| member | source | states |
|---|---|---|
| Dates.ParseDate | validacoes.py:247-254 | A text that `strptime('%d/%m/%Y')` accepts always yields a date that exists, with a year in 1..9999 |
| Dates.ParseSpelling | validacoes.py:247-254 | Every spelling strptime accepts for a date parses back to that date: day `7`, `07` or ` 7`, month `3` or `03`, four-digit year |
| Dates.ParseOnlySpellings | validacoes.py:247-254 | Every accepted text is one of those spellings of the date it yields, so nothing else is accepted |
| Dates.FormatRoundTrip | validacoes.py:406-407 | The `%d/%m/%Y` text that the expiry message writes parses back to the same date |
| Dates.NoThirtyFirstOfFebruary | validacoes.py:247-254 | "31/02/2024" is rejected |
| Dates.PlusDays | validacoes.py:401-404 | `date + timedelta(days=n)` is defined exactly when the result stays in 1..9999, and it is then n days later |
| Dates.AddDaysBetween | validacoes.py:388 | Adding the day difference a − b to b gives back a (calendar arithmetic agrees with `(d1 - d2).days`) |
| Dates.BeforeIffOrdinal | validacoes.py:406 | The date comparison `<` agrees with the day count from 1 January of year 1 |
| Dates.OrdinalInjective | validacoes.py:406 | Distinct calendar dates have distinct day counts |
| Dates.PlusMonths | validacoes.py:387 | `relativedelta(months=n)` moves the month exactly n steps and gives a real date. It fails exactly when the target month lies before January of year 1 or after December of 9999 |
| Dates.PlusMonthsDay | validacoes.py:387 | The day is kept when the target month has it, and clamped to the month's last day otherwise |
| Dates.PlusMonthsNotBefore | validacoes.py:387-388 | Adding a non-negative month count never gives an earlier date |
| Dates.PlusMonthsRoundTrip | validacoes.py:387 | When no clamping happened, going back n months restores the date |
| DateColumns.DateValid | validacoes.py:247-254 | valida_data is true exactly when the text parses |
| DateColumns.CellEntries | validacoes.py:286-294 | Each cell yields at most one entry. It yields one exactly when the cell is bad (missing with the null rule on, or present and unparseable), with the message for that case |
| DateColumns.CellEntryNamesCell | validacoes.py:286-294 | An entry comes from a cell if and only if the cell is bad and the entry names its column, and its value when present |
| DateColumns.ValidateDates | validacoes.py:271-303 | The loop's report equals the row-by-row, column-by-column report |
| DateColumns.ScanDates | validacoes.py:284-294 | The row loop, against that report, for any cell rule |
| DateColumns.CheckRow | validacoes.py:285-294 | The column loop of one row, against that row's entries |
| DateColumns.ReportIffBadCell | validacoes.py:271-303 | An entry is in the report if and only if some bad cell of some row produced exactly that entry |
| DateColumns.DateReportSound | validacoes.py:284-294 | Every entry comes from some cell of some row |
| DateColumns.DateReportComplete | validacoes.py:284-294 | Every entry of every cell is in the report |
| DateColumns.CellsEntriesSound | validacoes.py:285-294 | Every entry of a row comes from one of its cells |
| DateColumns.CellsEntriesComplete | validacoes.py:285-294 | Every entry of any cell of the row is among the row's entries |
| DateColumns.DateReportLength | validacoes.py:284-294 | At most one entry per cell |
| DateColumns.CellsEntriesLength | validacoes.py:285-294 | At most one entry per cell of a row |
| DateColumns.SpelledDateAccepted | validacoes.py:286-291 | A cell holding any accepted spelling of a real date is never reported |
| Duplicates.FiledUnder | validacoes.py:169 | The process numbers filed under a name are exactly those of the filings with that name; NaN names nothing |
| Duplicates.FiledUnderCount | validacoes.py:169-172 | Each process number occurs as often as it is filed under the name, so repeated filings are concatenated repeatedly |
| Duplicates.BuildProcesses | validacoes.py:167-174 | The loop's concatenation equals that of the sorted process numbers |
| Duplicates.ProcessesCanonical | validacoes.py:169-172 | Any ascending order of the same process numbers gives the same concatenation, so the result does not depend on how ties were sorted |
| Duplicates.NoFilingsNoProcesses | validacoes.py:167-174 | A name without filings gets the empty string |
| Duplicates.Candidates | validacoes.py:199 | The candidates are exactly the rows that another row matches on all key columns (NaN matching NaN), in table order |
| Duplicates.ProcessColumn | validacoes.py:201-207 | The Processos column holds the filings string for Positiva rows and '' for the others |
| Duplicates.RowProcesses | validacoes.py:203-207 | The Processos value of one row |
| Duplicates.KeyLeTotalPreorder | validacoes.py:211 | The groupby key order (values ascending, NaN last) is total, transitive and antisymmetric |
| Duplicates.Members | validacoes.py:211 | The members of a group are exactly the candidates with the group's key, in table order |
| Duplicates.GroupKeys | validacoes.py:211 | The group keys are the candidates' keys, each once, in the groupby order (values ascending, NaN last) |
| Duplicates.GroupRows | validacoes.py:211 | There is one group per distinct key, in the groupby key order, and every group lists exactly the candidates with its key |
| Duplicates.SharedKeyGroup | validacoes.py:211 | Two candidates with the same key land in the same group |
| Duplicates.NumberGroups | validacoes.py:214-226 | The numbering loop emits the table of tagged rows, group by group |
| Duplicates.EmitGroup | validacoes.py:217-225 | One group of several rows yields one entry per member, each carrying the group id |
| Duplicates.ValidateDuplicates | validacoes.py:191-235 | The report equals that of the grouped duplicates |
| Duplicates.Entries | validacoes.py:217-225 | Each tagged row becomes its group id, its reported value and the duplicate message |
| Duplicates.TableSound | validacoes.py:214-226 | A reported row belongs to a group of at least two members, and its id is 1 + the number of earlier groups of at least two |
| Duplicates.TableComplete | validacoes.py:214-226 | Every member of every group of at least two is reported with that id |
| Duplicates.TableStep | validacoes.py:216-226 | `grupo` is incremented only after a group of at least two |
| Duplicates.TableIdsBounded | validacoes.py:214-226 | The ids run from 1 up to the number of groups of at least two |
| Duplicates.TableIdsAttained | validacoes.py:214-226 | Every id in that range is carried by at least two entries |
| Duplicates.GroupIds | validacoes.py:214-226 | Both of the above for the actual groups |
| Duplicates.ReportedRowHasTwin | validacoes.py:199-226 | Every reported row has another row equal on the key columns and on the Processos value |
| Duplicates.TwinsReportedTogether | validacoes.py:199-226 | Two rows equal on the key columns and on Processos are both reported, with the same id |
| Duplicates.SameIdSameGroup | validacoes.py:214-226 | Entries with one id come from one group |
| Duplicates.SameGroupSameKey | validacoes.py:199-226 | Rows reported under one id agree on the key columns and on their process numbers, so rows differing only in those are never grouped |
| Expiration.CheckValidity | validacoes.py:322-418 | The loop's outcome equals the row-by-row outcome. A report is sorted by message, has at most one entry per row, and names only rows of the table |
| Expiration.ReportRows | validacoes.py:350-411 | The loop and the final sort_values, for any row step |
| Expiration.RunRows | validacoes.py:350-409 | The row loop against the fold over the rows; it stops at the first row that raises |
| Expiration.ScanRowsEntries | validacoes.py:350-409 | At most one entry per row, and each names a row of the table |
| Expiration.MessageLeTotal | validacoes.py:411 | The order by message is a total preorder |
| Expiration.UnreadableLimitDate | validacoes.py:338-343 | A reference date that does not parse yields an empty report |
| Expiration.NullValidityReported | validacoes.py:355-358 | With the null rule on, a missing or empty validity is reported, whatever else the row holds |
| Expiration.BothEmptyReported | validacoes.py:363-366 | Otherwise, an empty validity and an empty issue date give the "both empty" message, and `data_val` is untouched |
| Expiration.UnreadableCountReported | validacoes.py:372-385 | A "dias" count that `int(v[0:3])` cannot read, or a "meses" count that `int(v[0:2])` cannot read, gives the unreadable-value message, and `data_val` is untouched |
| Expiration.BlankValiditySkipped | validacoes.py:389-391 | A blank validity next to an issue date is no error, and `data_val` is untouched |
| Expiration.UnreadableValidityReported | validacoes.py:392-397 | An explicit validity that is not a date is reported with the text read, and `data_val` becomes '' |
| Expiration.DaysVerdict | validacoes.py:372-378 | "N dias" with a readable issue date: the row raises when issue + N leaves 1..9999; it is reported when issue + N falls before the reference date, with the message "Validade Expirada" naming issue + N |
| Expiration.MonthsVerdict | validacoes.py:379-388 | "N meses": the last valid day is issue + N months, and that date is remembered |
| Expiration.DateVerdict | validacoes.py:389-404 | An explicit validity date on or after the issue date is the last valid day |
| Expiration.ForwardValidUntil | validacoes.py:401-409 | Adding \|validity − issue\| days to the issue date gives the validity date when that is not earlier |
| Expiration.MirroredDateVerdict | validacoes.py:389-409 | A validity date before the issue date is mirrored past it: the row is judged at issue + (issue − validity), and a report names that date |
| Expiration.MirroredValidUntil | validacoes.py:401-409 | The same for the last-valid-day step alone, message included |
| Expiration.StaleVerdict | validacoes.py:389-404 | A validity text without an issue date is judged by the date an earlier row left in `data_val`, and raises when there is none |
| Expiration.ShiftByDifference | validacoes.py:388 | Shifting a by the absolute day difference reaches b |
| Reconcile.ValidateTaxIdName | validacoes.py:450-561 | The array after the call and the report equal the two-pass fold over the old table, and the returned table is the array itself |
| Reconcile.CheckNamed | validacoes.py:477-491 | The loop over rows with a tax ID against the first pass |
| Reconcile.FillMissing | validacoes.py:508-552 | The loop over rows without one: the array after it and its entries equal the second pass, writing into the array as it goes |
| Reconcile.Reconciled | validacoes.py:450-561 | The table keeps its length |
| Reconcile.NoIdPass | validacoes.py:508-552 | The second pass keeps the table's length |
| Reconcile.AllNames | validacoes.py:505 | nomes_geral holds exactly the names present |
| Reconcile.NamesUnder | validacoes.py:481 | The distinct names filed under one tax ID, and only those, in the order in which they first appear in the table |
| Reconcile.IdsNamed | validacoes.py:515 | The distinct tax IDs of the rows with one of the given names, in the order in which they first appear in the table |
| Reconcile.UrlsOf | validacoes.py:486 | The urls of the rows with one of the names and the tax ID |
| Reconcile.RefUrlMeaning | validacoes.py:486 | The reference url is the url of one of the rows with the names and the tax ID, no such row has a greater one, and it is NaN exactly when none of those rows has a url |
| Reconcile.MaxStringIsMax | validacoes.py:486 | The max of the urls is one of them and at least every other; there is none when no url exists |
| Reconcile.ByScoreTotal | validacoes.py:483 | process.extract's order (score descending, ties in list order) is a total preorder |
| Reconcile.Inconsistent | validacoes.py:481-485 | The reported names are exactly the distinct names under the tax ID that score below the threshold, without repeats, ordered by score; names with equal scores keep their order among the choices |
| Reconcile.WithIdRowEntries | validacoes.py:477-491 | A row with a tax ID and no name yields nothing; otherwise there is one entry per inconsistent name, carrying the row's reported value, a message naming both names, and as reference url the greatest url of the rows with that name under the tax ID |
| Reconcile.Similar | validacoes.py:529-534 | The similar names are exactly the names that reach the threshold |
| Reconcile.Candidates | validacoes.py:515-536 | The candidate tax IDs are distinct and already in the table |
| Reconcile.SameNameFirst | validacoes.py:515-536 | The candidates are those under the very same name when there are any, and those under the similar names otherwise |
| Reconcile.NoIdRow | validacoes.py:508-552 | Each case states the whole entry, with the row's reported value. A row without a name: one entry with an empty reference url, no write. One candidate: that tax ID is written, with the update message; the reference url is the greatest url of the rows with the row's name and that tax ID when the candidate was found under the same name, and empty when it was found through similar names. None: the unidentifiable message with an empty reference url. Several: no write, and one "may belong" entry per candidate, in candidate order, whose reference url is the greatest url of the rows with the looked-up names and that tax ID |
| Reconcile.NoIdPassFrame | validacoes.py:508-552 | The second pass changes only tax ID cells, only of rows that had none, and only by filling them |
| Reconcile.NoIdPassIds | validacoes.py:516-546 | No tax ID is invented |
| Reconcile.NoIdPassUnfilled | validacoes.py:508-552 | A row the rule never fills keeps its cell |
| Reconcile.NoIdRuleFills | validacoes.py:516-546 | The row rule writes only tax IDs found in the current table |
| Reconcile.ReconcileChanges | validacoes.py:450-561 | Rows with a tax ID are never changed. Names, reported values and urls never change. A changed row went from no tax ID to one, and every tax ID afterwards was there before |
| Reconcile.NamelessStaysUnidentified | validacoes.py:509-512 | A row with neither tax ID nor name keeps its empty tax ID |
| Report.Abbrev | validacoes.py:596-603 | The abbreviation of a result is P, N or PN |
| Report.Center2 | validacoes.py:579 | `str.center(2)`: the text followed by spaces up to length 2 |
| Report.ResultCode | validacoes.py:596-603 | The two-character code of a result is its abbreviation, centred to width 2 |
| Report.ClassifyLabelInjective | validacoes.py:596-603 | Two headings are equal if and only if the classifications agree in their first four characters and the results give the same code |
| Report.Marker | validacoes.py:579 | The marker of a kind is a space followed by the kind centred to width 2 |
| Report.LabelMarkerExact | validacoes.py:579 | Under a plain prefix (fourth character a space, no P or N right after a space, no N right after a P), the marker of a kind occurs in a heading if and only if that kind is the abbreviation of its result |
| Report.Totalize | validacoes.py:575-586 | The sum is that of the columns, past `skip`, whose heading contains the kind's marker |
| Report.MarkedColumnsSum | validacoes.py:575-586 | Adding up the collected columns equals the marked sum taken column by column |
| Report.TotalsPartition | validacoes.py:575-586 | When every heading carries exactly one of the P, N and PN markers, the three totals add up to the row's sum |
| Report.CellCode | validacoes.py:625-656 | A code is 1, 10, 20 or 30, or else 40 + 10·(j − start) in a total column |
| Report.CodeOneIffEmpty | validacoes.py:631-652 | A cell keeps the initial 1 if and only if it is '' or a zero count outside the totals |
| Report.TotalShades | validacoes.py:651-652 | Counts in total columns get codes of 40 and up, one per column |
| Report.CountColourMatchesResult | validacoes.py:636-650 | Under a plain prefix, a non-zero count under a classif_result heading gets the colour of the result text it counts |
| Report.HeadingHasPN | validacoes.py:645-646 | Under a plain prefix, "PN" occurs in a heading if and only if the result is neither Positiva nor Negativa |
| Report.HeadingHasN | validacoes.py:647-648 | Under a plain prefix, " N " occurs in a heading if and only if the result is Negativa |
| Report.MaskMap | validacoes.py:625-656 | A new matrix of the data's shape, whose every cell holds the code of the data cell |
| Report.StripAll | validacoes.py:856 | The stripped column names |
| Report.SupplierScore | validacoes.py:853-865 | The score is the sum over the columns of the weight of each cell |
| Report.AddWeights | validacoes.py:855-863 | The column loop against that sum |
| Report.ScoreNonNegative | validacoes.py:853-865 | With non-negative override weights the score is non-negative |
| Report.ScoreWithoutExceptions | validacoes.py:853-865 | Without overrides the score is #Positiva + 0.5·#Pos./Neg. |
| Report.WeightIndex | validacoes.py:886-891 | Letters A..C and third 0..1 pick a weight column in 1..6 |
| Report.WeightIndexInjective | validacoes.py:886-891 | Within those ranges, distinct (letter, third) pairs pick distinct columns. Letter D with third 0 collides with A with third 1 |
| Report.RulesOf | validacoes.py:889-891 | The override dictionary has a key for exactly the names of the special rows |
| Report.SpecialRules | validacoes.py:889-891 | The loop builds that dictionary |
| Report.RulesLastWins | validacoes.py:889-891 | A name listed twice takes the weight of its last row |
| Text.StripLeft | validacoes.py:360-361 | `lstrip()` removes exactly the leading whitespace |
| Text.StripRight | validacoes.py:856 | `rstrip()` removes exactly the trailing whitespace |
| Text.Lower | validacoes.py:360 | `lower()` maps character by character |
| Text.ContainsAt | validacoes.py:372 | `sub in s` holds if and only if sub occurs at some position of s |
| Text.Take | validacoes.py:603 | `s[0:4]` is the first four characters, or all of s |
| Text.StrLeTotal | validacoes.py:169 | The string order is total |
| Sorting.SortBySorted | validacoes.py:411 | The sort gives a sorted permutation |
| Sorting.SortedUnique | validacoes.py:169 | Under an antisymmetric order, two sorted permutations of one multiset are equal |
| Sorting.SortByStable | validacoes.py:483 | The sort is stable: when a later element is ordered no higher than an earlier one, the two appeared in that order in the input |
| Seqs.Distinct | validacoes.py:505 | `unique()` keeps each value once and nothing else, in the order of first appearance |
| Seqs.Filter | validacoes.py:536 | Filtering keeps exactly the elements that pass, each as often as in the input, in their input order |
| Seqs.SubsequencePrecedes | validacoes.py:483-485 | Elements of a subsequence keep their relative order from the sequence |

## Left out

- Downloading and reading the spreadsheets, writing the reports to Excel, and the `save` branches of every rule. These are file and network I/O.
- `date.today()` becomes the `today` parameter of `Expiration.CheckValidity`.
- Plotting, colour maps, `make_clickable` and the HTML formatting. They are rendering only.
- The pivot, `get_dummies` and groupby steps of the report functions that build the tables mask_map and get_supplier_score receive. The model starts from those tables.
- The fuzzy scorer behind `process.extract` is a parameter of type `Scorer`, giving any score in 0..100. Its own algorithm is not part of this model.
- Table cells are strings or NaN (`Option<string>`). Numeric or datetime cells read from a spreadsheet are not modelled, and NaN process numbers are not modelled.
- pandas `sort_values` uses an unstable sort by default. The model sorts stably, which is one of the orders pandas may produce. `Duplicates.ProcessesCanonical` shows that the process string does not depend on this choice.
- Row identities (index labels) are assumed unique. `df.loc` with a repeated label writes several rows; the model writes only the row at hand.
- validar_datas ignores its `format` argument and always calls valida_data with `%d/%m/%Y`, so the model has no format parameter.
- DateColumns.ValidateDates: requires every row to have a cell for every date column. A missing column raises KeyError in pandas before any check runs.
- strptime and `int()` accept Unicode decimal digits. The model accepts ASCII digits only. `lower()` is modelled for ASCII and Latin-1 capitals.
- Reconcile.Candidates: the two lookups of the code (the same name, then similar names) are one function. `Reconcile.SameNameFirst` states which one applies. The url cells are strings or NaN.
- Report.SupplierScore: floats are modelled as exact reals, so rounding is not modelled. It requires at least as many cells as columns. `zip` pairs the column positions with the columns themselves, so a shorter row would raise IndexError at `row[pos]`. The only caller (line 893) passes a row with one cell more than `columns`, the `score` cell.
- Report.Totalize: counts are unbounded integers, not numpy floats. It requires a cell for every heading.
- Report.LabelMarkerExact: holds only under a plain prefix. A classification whose fourth character is not a space gives a heading such as "CertP " ("Cert" + "P "), which holds no " P " marker, so totaliza_np leaves its counts out of every total. mask_map colours such columns by the heading test of lines 645-652 too: "CNDT" with the result Negativa gives the heading "CNDTN ", which holds neither "PN" nor " N ", so a non-zero count under it gets 10, the Positiva colour, instead of 30. The model computes the same sums and colours as the code for such headings.
- Report.MaskMap: requires one heading per data column, as `label_x[j]` is read for every column.
- Report.MarkedColumns: states only that the collected columns lie in range. The partner lemmas `Report.MarkedColumnsSum` and `Report.TotalsPartition` pin down which columns are collected.
- Report.RulesOf: requires every special row to have the chosen weight column. Python would read a negative index from the end or raise IndexError.
- Report.SpecialRules: the supplier lookup at lines 884-885 that supplies the letter and the third-party flag is not modelled. They are parameters.
- Expiration.CheckValidity: the exceptions the code raises are one `Raises` outcome. Which exception it is, and any partial output, are not modelled.
- Dates.FormatDate: years below 1000 are written with four digits. This differs from CPython on Linux before 3.13, where glibc's `%Y` writes them unpadded ("999").
