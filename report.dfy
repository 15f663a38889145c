/** The per-row helpers behind the certificate map and the supplier score:
    the short column labels (classif_result), the totals of one result kind
    (totaliza_np), the colour-code matrix (mask_map), the weighted supplier
    score (get_supplier_score) and the choice of the weight column in
    suppliers_score. They work on rows the pandas reshaping has already
    produced. */
module Report {
  import opened Text

  const Positive := "Positiva"
  const Negative := "Negativa"
  const Mixed := "Pos./Neg."

  // ---------------------------------------------------------------------
  // Column labels (classif_result) and total markers (totaliza_np)
  // ---------------------------------------------------------------------

  /** The abbreviation of a result kind used to name the total columns:
      P, N, or PN for anything else. */
  function Abbrev(result: string): (t: string)
    ensures t == "P" || t == "N" || t == "PN"
  {
    if result == Positive then "P" else if result == Negative then "N" else "PN"
  }

  /** Python's str.center(2): text of two characters or more is returned
      as it is; a single character gets one space on its right, the empty
      text becomes two spaces. */
  function Center2(t: string): (r: string)
    ensures |r| == if |t| < 2 then 2 else |t|
    ensures r[..|t|] == t
    ensures forall i :: |t| <= i < |r| ==> r[i] == ' '
  {
    if |t| == 0 then "  " else if |t| == 1 then t + " " else t
  }

  /** The two-character result code that ends a column heading: P, N or PN
      centred in two characters. */
  function ResultCode(result: string): (code: string)
    ensures |code| == 2
    ensures code == Center2(Abbrev(result))
  {
    if result == Positive then "P " else if result == Negative then "N " else "PN"
  }

  /** classif_result: the first four characters of the classification
      followed by the result code. */
  function ClassifyLabel(classification: string, result: string): string
  {
    Take(classification, 4) + ResultCode(result)
  }

  /** Two rows get the same heading exactly when their classifications agree
      on the first four characters and their results on the code. */
  lemma ClassifyLabelInjective(c1: string, r1: string, c2: string, r2: string)
    ensures ClassifyLabel(c1, r1) == ClassifyLabel(c2, r2)
        <==> Take(c1, 4) == Take(c2, 4) && ResultCode(r1) == ResultCode(r2)
  {
    var l1, l2 := ClassifyLabel(c1, r1), ClassifyLabel(c2, r2);
    if l1 == l2 {
      var n := |l1| - 2;
      assert Take(c1, 4) == l1[..n] && Take(c2, 4) == l2[..n];
      assert ResultCode(r1) == l1[n..] && ResultCode(r2) == l2[n..];
    }
  }

  /** The text totaliza_np looks for in a column heading: a space followed
      by the kind centred in two characters. */
  function Marker(kind: string): (m: string)
    ensures |m| >= 3 && m[0] == ' ' && m[1..] == Center2(kind)
  {
    " " + Center2(kind)
  }

  /** A classification whose fourth character is a space and whose first
      four characters put neither a P nor an N right after a space, nor an N
      right after a P ("CND Federal" qualifies; "INSS ", "A N " and "APN " do not):
      then the heading of a row names its result kind unambiguously. */
  predicate PlainPrefix(classification: string) {
    |classification| >= 4 && classification[3] == ' ' && PlainPairs(classification)
  }

  /** No pair of neighbouring characters among the first four is a space
      followed by P or N, or a P followed by N. */
  predicate PlainPairs(s: string)
    requires |s| >= 4
  {
    forall i :: 0 <= i < 3 ==>
      !(s[i] == ' ' && (s[i + 1] == 'P' || s[i + 1] == 'N')) && !(s[i] == 'P' && s[i + 1] == 'N')
  }

  /** Under a plain prefix a heading carries the marker of exactly one kind,
      the abbreviation of its own result. */
  lemma {:induction false} LabelMarkerExact(classification: string, result: string, kind: string)
    requires PlainPrefix(classification)
    requires kind == "P" || kind == "N" || kind == "PN"
    ensures Contains(ClassifyLabel(classification, result), Marker(kind)) <==> kind == Abbrev(result)
  {
    var heading := ClassifyLabel(classification, result);
    var m := Marker(kind);
    assert |heading| == 6 && heading[..4] == classification[..4] && heading[4..] == ResultCode(result);
    ContainsAt(heading, m);
    if kind == Abbrev(result) {
      assert heading[3..6] == m;
      assert OccursAt(heading, m, 3);
    } else {
      assert m[1] == 'P' || m[1] == 'N';
      forall k | 0 <= k <= |heading| - |m| ensures !OccursAt(heading, m, k) {
        if k < 3 {
          assert heading[k] == classification[k] && heading[k + 1] == classification[k + 1];
          assert heading[k..k + |m|][0] != m[0] || heading[k..k + |m|][1] != m[1];
        } else {
          assert heading[k..k + |m|][1..] == heading[4..] != m[1..];
        }
      }
    }
  }

  /** Indices from skip to n - 1 whose heading contains the marker: the
      first loop of totaliza_np. */
  function MarkedColumns(columns: seq<string>, marker: string, skip: nat, n: nat): (cols: seq<nat>)
    requires n <= |columns|
    ensures forall a :: 0 <= a < |cols| ==> skip <= cols[a] < n
    decreases n
  {
    if n <= skip then []
    else
      var prev := MarkedColumns(columns, marker, skip, n - 1);
      if Contains(columns[n - 1], marker) then prev + [n - 1] else prev
  }

  /** The sum of row[i] over the listed indices (those inside the row). */
  function SumAt(row: seq<int>, cols: seq<nat>): int {
    if cols == [] then 0
    else
      var x := cols[|cols| - 1];
      SumAt(row, cols[..|cols| - 1]) + if x < |row| then row[x] else 0
  }

  /** What totaliza_np returns: the counts of the columns from skip to n - 1
      whose heading contains the marker. */
  function MarkedSum(row: seq<int>, columns: seq<string>, marker: string, skip: nat, n: nat): int
    requires n <= |columns| <= |row|
    decreases n
  {
    if n <= skip then 0
    else MarkedSum(row, columns, marker, skip, n - 1) + (if Contains(columns[n - 1], marker) then row[n - 1] else 0)
  }

  /** The counts from skip to n - 1, every column taken. */
  function RangeSum(row: seq<int>, skip: nat, n: nat): int
    requires n <= |row|
    decreases n
  {
    if n <= skip then 0 else RangeSum(row, skip, n - 1) + row[n - 1]
  }

  /** totaliza_np: collects the marked column indices, then adds up their
      counts. */
  method Totalize(row: seq<int>, skip: nat, kind: string, columns: seq<string>) returns (soma: int)
    requires |columns| <= |row|
    ensures soma == MarkedSum(row, columns, Marker(kind), skip, |columns|)
  {
    var marker := Marker(kind);
    var cols: seq<nat> := [];
    var j := if skip < |columns| then skip else |columns|;
    while j < |columns|
      invariant j <= |columns|
      invariant cols == MarkedColumns(columns, marker, skip, j)
    {
      if Contains(columns[j], marker) {
        cols := cols + [j];
      } else {
        assert cols + [] == cols;
      }
      j := j + 1;
    }
    soma := 0;
    for i := 0 to |cols|
      invariant soma == SumAt(row, cols[..i])
    {
      assert cols[..i + 1][..i] == cols[..i];
      soma := soma + row[cols[i]];
    }
    assert cols[..|cols|] == cols;
    MarkedColumnsSum(row, columns, marker, skip, |columns|);
  }

  lemma {:induction false} MarkedColumnsSum(row: seq<int>, columns: seq<string>, marker: string, skip: nat, n: nat)
    requires n <= |columns| <= |row|
    ensures SumAt(row, MarkedColumns(columns, marker, skip, n)) == MarkedSum(row, columns, marker, skip, n)
  {
    if n > skip {
      MarkedColumnsSum(row, columns, marker, skip, n - 1);
      var prev := MarkedColumns(columns, marker, skip, n - 1);
      var hit := Contains(columns[n - 1], marker);
      assert MarkedColumns(columns, marker, skip, n) == if hit then prev + [n - 1] else prev;
      assert MarkedSum(row, columns, marker, skip, n)
        == MarkedSum(row, columns, marker, skip, n - 1) + if hit then row[n - 1] else 0;
      if hit {
        SumAtAppend(row, prev, n - 1);
      }
    }
  }

  lemma SumAtAppend(row: seq<int>, cols: seq<nat>, x: nat)
    requires x < |row|
    ensures SumAt(row, cols + [x]) == SumAt(row, cols) + row[x]
  {
    assert (cols + [x])[..|cols|] == cols;
  }

  /** When every heading from skip on carries exactly one of the three
      markers, the P, N and PN totals add up to the whole range. */
  lemma {:induction false} TotalsPartition(row: seq<int>, columns: seq<string>, skip: nat, n: nat)
    requires n <= |columns| <= |row|
    requires forall i :: skip <= i < n ==>
      (if Contains(columns[i], Marker("P")) then 1 else 0)
      + (if Contains(columns[i], Marker("N")) then 1 else 0)
      + (if Contains(columns[i], Marker("PN")) then 1 else 0) == 1
    ensures MarkedSum(row, columns, Marker("P"), skip, n) + MarkedSum(row, columns, Marker("N"), skip, n)
      + MarkedSum(row, columns, Marker("PN"), skip, n) == RangeSum(row, skip, n)
  {
    if n > skip {
      TotalsPartition(row, columns, skip, n - 1);
    }
  }

  // ---------------------------------------------------------------------
  // Colour codes (mask_map)
  // ---------------------------------------------------------------------

  /** A cell of the map's data: a result text (the sheet view) or a count
      (the pivoted view). */
  datatype Cell = Text(s: string) | Count(n: int)

  /** The first total column: the last totalQt columns hold totals when
      totals are shown. */
  function TotalsStart(width: nat, totals: bool, totalQt: nat): int {
    if totals then width - totalQt else width
  }

  /** The code mask_map gives a cell of column j: 30, 10, 20 for the
      results Negativa, Positiva, Pos./Neg.; 1 for a blank; a non-zero
      count in a data column takes its colour from the column heading (PN,
      then N, else P); a total column j gets 40 + 10 (j - start). */
  function CellCode(cell: Cell, heading: string, j: nat, start: int): (code: int)
    ensures code == 1 || code == 10 || code == 20 || code == 30 || (start <= j && code == 40 + 10 * (j - start))
  {
    if cell == Text(Negative) then 30
    else if cell == Text(Positive) then 10
    else if cell == Text(Mixed) then 20
    else if cell == Text("") then 1
    else if j < start then
      if cell == Count(0) then 1
      else if Contains(heading, "PN") then 20
      else if Contains(heading, " N ") then 30
      else 10
    else 40 + 10 * (j - start)
  }

  /** A cell keeps the initial 1 exactly when it is blank or a zero count
      in a data column. */
  lemma CodeOneIffEmpty(cell: Cell, heading: string, j: nat, start: int)
    ensures CellCode(cell, heading, j, start) == 1 <==> cell == Text("") || (j < start && cell == Count(0))
  {
  }

  /** Every total column gets its own shade, above all result colours. */
  lemma TotalShades(cell: Cell, heading: string, j1: nat, j2: nat, start: int)
    requires start <= j1 && start <= j2 && j1 != j2
    requires cell.Count?
    ensures CellCode(cell, heading, j1, start) >= 40
    ensures CellCode(cell, heading, j1, start) != CellCode(cell, heading, j2, start)
  {
  }

  /** In the pivoted map a non-zero count under the heading classif_result
      built for a result is coloured as that result itself. */
  lemma {:induction false} CountColourMatchesResult(classification: string, result: string, n: int, j: nat, start: int)
    requires PlainPrefix(classification) && n != 0 && j < start
    ensures CellCode(Count(n), ClassifyLabel(classification, result), j, start)
         == CellCode(Text(if result == Positive || result == Negative then result else Mixed), "", j, start)
  {
    HeadingHasPN(classification, result);
    HeadingHasN(classification, result);
  }

  /** The characters of a heading built from a plain prefix. */
  lemma HeadingChars(classification: string, result: string)
    requires PlainPrefix(classification)
    ensures var heading := ClassifyLabel(classification, result);
      |heading| == 6 && heading[3] == ' '
      && PlainPairs(heading) && heading[4..] == ResultCode(result)
  {
    var heading := ClassifyLabel(classification, result);
    assert forall i :: 0 <= i < 4 ==> heading[i] == classification[i];
  }

  /** Under a plain prefix "PN" occurs in a heading exactly for the results
      other than Positiva and Negativa. */
  lemma {:induction false} HeadingHasPN(classification: string, result: string)
    requires PlainPrefix(classification)
    ensures Contains(ClassifyLabel(classification, result), "PN") <==> result != Positive && result != Negative
  {
    var heading := ClassifyLabel(classification, result);
    HeadingChars(classification, result);
    ContainsAt(heading, "PN");
    if result == Positive || result == Negative {
      assert heading[4] != 'P' || heading[5] != 'N';
      forall k | 0 <= k <= |heading| - 2 ensures !OccursAt(heading, "PN", k) {
        assert heading[k..k + 2][0] == heading[k] && heading[k..k + 2][1] == heading[k + 1];
      }
    } else {
      assert heading[4..6] == "PN";
      assert OccursAt(heading, "PN", 4);
    }
  }

  /** Under a plain prefix " N " occurs in a heading exactly for the result
      Negativa. */
  lemma {:induction false} HeadingHasN(classification: string, result: string)
    requires PlainPrefix(classification)
    ensures Contains(ClassifyLabel(classification, result), " N ") <==> result == Negative
  {
    var heading := ClassifyLabel(classification, result);
    HeadingChars(classification, result);
    ContainsAt(heading, " N ");
    if result == Negative {
      assert heading[3..6] == " N ";
      assert OccursAt(heading, " N ", 3);
    } else {
      assert heading[4] != 'N';
      forall k | 0 <= k <= |heading| - 3 ensures !OccursAt(heading, " N ", k) {
        assert heading[k..k + 3][0] == heading[k] && heading[k..k + 3][1] == heading[k + 1];
      }
    }
  }

  /** mask_map: a matrix of the data's shape, started at 1 and filled cell
      by cell. */
  method MaskMap(data: array2<Cell>, labels: seq<string>, totals: bool, totalQt: nat) returns (d: array2<int>)
    requires data.Length1 == |labels|
    ensures fresh(d) && d.Length0 == data.Length0 && d.Length1 == data.Length1
    ensures forall i, j :: 0 <= i < d.Length0 && 0 <= j < d.Length1 ==>
      d[i, j] == CellCode(data[i, j], labels[j], j, TotalsStart(|labels|, totals, totalQt))
  {
    var start := TotalsStart(|labels|, totals, totalQt);
    d := new int[data.Length0, data.Length1]((i, j) => 1);
    for i := 0 to data.Length0
      invariant forall a, b :: 0 <= a < i && 0 <= b < d.Length1 ==> d[a, b] == CellCode(data[a, b], labels[b], b, start)
      invariant forall a, b :: i <= a < d.Length0 && 0 <= b < d.Length1 ==> d[a, b] == 1
    {
      for j := 0 to data.Length1
        invariant forall a, b :: 0 <= a < i && 0 <= b < d.Length1 ==> d[a, b] == CellCode(data[a, b], labels[b], b, start)
        invariant forall b :: 0 <= b < j ==> d[i, b] == CellCode(data[i, b], labels[b], b, start)
        invariant forall a, b :: i <= a < d.Length0 && 0 <= b < d.Length1 && (a > i || b >= j) ==> d[a, b] == 1
      {
        var value := data[i, j];
        if value == Text(Negative) || value == Text(Positive) || value == Text(Mixed) || value == Text("") {
          if value == Text(Negative) {
            d[i, j] := 30;
          } else if value == Text(Positive) {
            d[i, j] := 10;
          } else if value == Text(Mixed) {
            d[i, j] := 20;
          }
        } else if j < start {
          if value != Count(0) {
            if Contains(labels[j], "PN") {
              d[i, j] := 20;
            } else if Contains(labels[j], " N ") {
              d[i, j] := 30;
            } else {
              d[i, j] := 10;
            }
          }
        } else {
          d[i, j] := 40 + 10 * (j - start);
        }
      }
    }
  }

  // ---------------------------------------------------------------------
  // Supplier score (get_supplier_score) and its weights (suppliers_score)
  // ---------------------------------------------------------------------

  /** What one cell adds to the score: the exception weight of its stripped
      column name, or 1, for Positiva; 0.5 for Pos./Neg.; nothing else. */
  function CellWeight(cell: string, rules: map<string, real>, column: string): real {
    if cell == Positive then (if column in rules then rules[column] else 1.0)
    else if cell == Mixed then 0.5
    else 0.0
  }

  /** The stripped column names: the keys get_supplier_score looks up. */
  function StripAll(columns: seq<string>): (keys: seq<string>)
    ensures |keys| == |columns| && forall i :: 0 <= i < |columns| ==> keys[i] == Strip(columns[i])
  {
    seq(|columns|, i requires 0 <= i < |columns| => Strip(columns[i]))
  }

  /** The score of the first n cells, each looked up under its key. */
  function ScoreOf(row: seq<string>, rules: map<string, real>, keys: seq<string>, n: nat): real
    requires n <= |keys| && n <= |row|
    decreases n
  {
    if n == 0 then 0.0 else ScoreOf(row, rules, keys, n - 1) + CellWeight(row[n - 1], rules, keys[n - 1])
  }

  /** get_supplier_score: every column name is stripped before it is
      looked up among the exception rules. */
  method SupplierScore(row: seq<string>, rules: map<string, real>, columns: seq<string>) returns (total: real)
    requires |columns| <= |row|
    ensures total == ScoreOf(row, rules, StripAll(columns), |columns|)
  {
    var keys := StripAll(columns);
    total := AddWeights(row, rules, keys);
  }

  /** The loop of get_supplier_score over the stripped column names. */
  method AddWeights(row: seq<string>, rules: map<string, real>, keys: seq<string>) returns (total: real)
    requires |keys| <= |row|
    ensures total == ScoreOf(row, rules, keys, |keys|)
  {
    total := 0.0;
    for pos := 0 to |keys|
      invariant total == ScoreOf(row, rules, keys, pos)
    {
      var col := keys[pos];
      if row[pos] == Positive {
        if col in rules {
          total := total + rules[col];
        } else {
          total := total + 1.0;
        }
      } else if row[pos] == Mixed {
        total := total + 0.5;
      }
    }
  }

  /** With non-negative exception weights the score is non-negative. */
  lemma {:induction false} ScoreNonNegative(row: seq<string>, rules: map<string, real>, keys: seq<string>, n: nat)
    requires n <= |keys| && n <= |row|
    requires forall c :: c in rules ==> rules[c] >= 0.0
    ensures ScoreOf(row, rules, keys, n) >= 0.0
  {
    if n > 0 {
      ScoreNonNegative(row, rules, keys, n - 1);
    }
  }

  /** How many of the first n cells hold the given result. */
  function CountOf(row: seq<string>, result: string, n: nat): nat
    requires n <= |row|
  {
    if n == 0 then 0 else CountOf(row, result, n - 1) + (if row[n - 1] == result then 1 else 0)
  }

  /** Without exception weights the score is the number of Positiva cells
      plus half the number of Pos./Neg. cells. */
  lemma {:induction false} ScoreWithoutExceptions(row: seq<string>, rules: map<string, real>, keys: seq<string>, n: nat)
    requires n <= |keys| && n <= |row|
    requires forall i :: 0 <= i < n ==> keys[i] !in rules
    ensures ScoreOf(row, rules, keys, n) == CountOf(row, Positive, n) as real + 0.5 * CountOf(row, Mixed, n) as real
  {
    if n > 0 {
      ScoreWithoutExceptions(row, rules, keys, n - 1);
    }
  }

  /** One row of the exception-weight table: the column name, then the
      weights of the six (curve, third party) combinations. */
  datatype SpecialRow = SpecialRow(name: string, weights: seq<real>)

  /** The position of the weight to use in a special row: curve letter A,
      B, C as 1, 2, 3, shifted by three for a third party. Position 0 is
      the name. */
  function WeightIndex(letter: char, third: int): (idx: int)
    ensures 'A' <= letter <= 'C' && 0 <= third <= 1 ==> 1 <= idx <= 6
  {
    letter as int - 64 + 3 * third
  }

  /** For curves A to C and a 0/1 third-party flag every combination has
      its own weight column; a curve letter past C would share one (D
      without third party reads the column of A with third party). */
  lemma WeightIndexInjective(l1: char, t1: int, l2: char, t2: int)
    requires 'A' <= l1 <= 'C' && 'A' <= l2 <= 'C' && 0 <= t1 <= 1 && 0 <= t2 <= 1
    ensures WeightIndex(l1, t1) == WeightIndex(l2, t2) <==> l1 == l2 && t1 == t2
    ensures WeightIndex('D', 0) == WeightIndex('A', 1)
  {
  }

  /** The exception rules built from the table: each row's name mapped to
      its weight at position idx, a later row overwriting an earlier one. */
  function RulesOf(special: seq<SpecialRow>, idx: int): (rules: map<string, real>)
    requires forall r :: r in special ==> 1 <= idx <= |r.weights|
    ensures forall c :: c in rules <==> exists k :: 0 <= k < |special| && special[k].name == c
  {
    if special == [] then map[]
    else
      var init, last := special[..|special| - 1], special[|special| - 1];
      assert forall r :: r in init ==> r in special;
      assert forall k :: 0 <= k < |init| ==> init[k] == special[k];
      RulesOf(init, idx)[last.name := last.weights[idx - 1]]
  }

  /** The dictionary suppliers_score builds for one supplier. */
  method SpecialRules(special: seq<SpecialRow>, letter: char, third: int) returns (rules: map<string, real>)
    requires forall r :: r in special ==> 1 <= WeightIndex(letter, third) <= |r.weights|
    ensures rules == RulesOf(special, WeightIndex(letter, third))
  {
    var idx := WeightIndex(letter, third);
    rules := map[];
    for k := 0 to |special|
      invariant forall r :: r in special[..k] ==> r in special
      invariant rules == RulesOf(special[..k], idx)
    {
      assert special[..k + 1][..k] == special[..k];
      rules := rules[special[k].name := special[k].weights[idx - 1]];
    }
    assert special[..|special|] == special;
  }

  /** The weight a column ends with comes from the last table row of that
      name. */
  lemma {:induction false} RulesLastWins(special: seq<SpecialRow>, idx: int, k: nat)
    requires forall r :: r in special ==> 1 <= idx <= |r.weights|
    requires k < |special|
    requires forall l :: k < l < |special| ==> special[l].name != special[k].name
    ensures RulesOf(special, idx)[special[k].name] == special[k].weights[idx - 1]
  {
    if k < |special| - 1 {
      var init := special[..|special| - 1];
      assert init[k] == special[k];
      assert forall l :: k < l < |init| ==> init[l] == special[l];
      RulesLastWins(init, idx, k);
    }
  }
}
