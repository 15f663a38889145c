/** validar_duplicidade and monta_processos: rows equal on the key columns
    are candidate duplicates; a candidate stays a duplicate only if its
    group-mates also agree on the process numbers of its positive filings. */
module Duplicates {
  import opened Wrappers
  import opened Text
  import opened Sorting
  import opened Seqs

  /** A row of the positive-filings table: the certificate name and one
      process number. */
  datatype Filing = Filing(name: Option<string>, process: string)

  /** A row of the main table as the check reads it: the name (its first
      column), the values of the key columns, the Resultado column and the
      reported column. None stands for NaN. */
  datatype DupRow = DupRow(name: Option<string>, keys: seq<Option<string>>, result: Option<string>, report: string)

  /** One row of the report: group id, reported value, message. */
  datatype DupEntry = DupEntry(group: nat, url: string, message: string)

  const DuplicateMessage: string := "Possível certidão duplicada"

  // ---------------------------------------------------------------------
  // monta_processos
  // ---------------------------------------------------------------------

  /** The positions of the filings of process p under the name. */
  function FilingsOf(filings: seq<Filing>, name: Option<string>, p: string): set<nat> {
    set k: nat | k < |filings| && name.Some? && filings[k].name == name && filings[k].process == p
  }

  /** The process numbers filed under a name, in table order
      (dfp[dfp['Nome'] == nome]); NaN equals nothing. */
  function FiledUnder(filings: seq<Filing>, name: Option<string>): (r: seq<string>)
    ensures |r| <= |filings|
    ensures forall p :: p in r <==> exists k :: 0 <= k < |filings| && name.Some? && filings[k].name == name && filings[k].process == p
  {
    if filings == [] then []
    else
      var n := |filings| - 1;
      var last := filings[n];
      var init := filings[..n];
      var r := FiledUnder(init, name) + (if name.Some? && last.name == name then [last.process] else []);
      assert forall k :: 0 <= k < |init| ==> init[k] == filings[k];
      r
  }

  /** Each process number occurs in FiledUnder once per filing of it under
      the name. */
  lemma {:induction false} FiledUnderCount(filings: seq<Filing>, name: Option<string>)
    ensures forall p :: multiset(FiledUnder(filings, name))[p] == |FilingsOf(filings, name, p)|
  {
    if filings != [] {
      var init := filings[..|filings| - 1];
      FiledUnderCount(init, name);
      FilingsCountStep(filings, name, FiledUnder(init, name), FiledUnder(filings, name));
    }
  }

  /** One more filing adds its process number once when it is under the
      name, and nothing otherwise. */
  lemma FilingsCountStep(filings: seq<Filing>, name: Option<string>, r0: seq<string>, r: seq<string>)
    requires filings != []
    requires forall p :: multiset(r0)[p] == |FilingsOf(filings[..|filings| - 1], name, p)|
    requires var last := filings[|filings| - 1];
      r == r0 + (if name.Some? && last.name == name then [last.process] else [])
    ensures forall p :: multiset(r)[p] == |FilingsOf(filings, name, p)|
  {
    var n := |filings| - 1;
    var last := filings[n];
    forall p ensures multiset(r)[p] == |FilingsOf(filings, name, p)| {
      var before := FilingsOf(filings[..n], name, p);
      assert n !in before;
      assert forall k: nat :: k < n ==> filings[..n][k] == filings[k];
      assert forall k: nat :: k in FilingsOf(filings, name, p) <==> k in before || (k == n && name.Some? && last.name == name && last.process == p);
      if name.Some? && last.name == name && last.process == p {
        assert FilingsOf(filings, name, p) == before + {n};
      } else {
        assert FilingsOf(filings, name, p) == before;
      }
    }
  }

  /** The parts written one after another. */
  function Concat(parts: seq<string>): string {
    if parts == [] then "" else Concat(parts[..|parts| - 1]) + parts[|parts| - 1]
  }

  /** What monta_processos returns: the name's process numbers in ascending
      order, concatenated. */
  function Processes(filings: seq<Filing>, name: Option<string>): string {
    Concat(SortBy(FiledUnder(filings, name), StrLe))
  }

  /** monta_processos (lines 167-174). */
  method BuildProcesses(filings: seq<Filing>, name: Option<string>) returns (s: string)
    ensures s == Processes(filings, name)
  {
    var procs := SortBy(FiledUnder(filings, name), StrLe);
    s := "";
    var k := 0;
    while k < |procs|
      invariant 0 <= k <= |procs|
      invariant s == Concat(procs[..k])
    {
      assert procs[..k + 1][..k] == procs[..k];
      s := s + procs[k];
      k := k + 1;
    }
    assert procs[..k] == procs;
  }

  lemma StrLeTotalPreorder()
    ensures TotalPreorder(StrLe)
  {
    forall a: string, b: string ensures StrLe(a, b) || StrLe(b, a) {
      StrLeTotal(a, b);
    }
    forall a: string, b: string, c: string | StrLe(a, b) && StrLe(b, c) ensures StrLe(a, c) {
      StrLeTransitive(a, b, c);
    }
  }

  /** The string does not depend on how equal process numbers are ordered
      among themselves: any ascending arrangement of the name's numbers
      concatenates to it, so the unstable sort of sort_values is harmless. */
  lemma ProcessesCanonical(filings: seq<Filing>, name: Option<string>, order: seq<string>)
    requires multiset(order) == multiset(FiledUnder(filings, name))
    requires SortedBy(order, StrLe)
    ensures Concat(order) == Processes(filings, name)
  {
    StrLeTotalPreorder();
    SortBySorted(FiledUnder(filings, name), StrLe);
    forall x: string, y: string | StrLe(x, y) && StrLe(y, x) ensures x == y {
      StrLeAntisymmetric(x, y);
    }
    SortedUnique(order, SortBy(FiledUnder(filings, name), StrLe), StrLe);
  }

  /** A name with no positive filing (or a NaN name) gets the empty string. */
  lemma NoFilingsNoProcesses(filings: seq<Filing>, name: Option<string>)
    requires forall k :: 0 <= k < |filings| ==> name.None? || filings[k].name != name
    ensures Processes(filings, name) == ""
  {
    NothingFiled(filings, name);
  }

  lemma {:induction false} NothingFiled(filings: seq<Filing>, name: Option<string>)
    requires forall k :: 0 <= k < |filings| ==> name.None? || filings[k].name != name
    ensures FiledUnder(filings, name) == []
  {
    if filings != [] {
      NothingFiled(filings[..|filings| - 1], name);
    }
  }

  // ---------------------------------------------------------------------
  // The order groupby sorts its keys in
  // ---------------------------------------------------------------------

  /** Cell order of a sorted groupby: strings ascending, NaN last. */
  predicate CellLe(a: Option<string>, b: Option<string>) {
    match a
    case None => b.None?
    case Some(x) => b.None? || StrLe(x, b.value)
  }

  /** A group key: the key columns followed by the process string. */
  type Key = seq<Option<string>>

  /** Lexicographic order on keys. */
  predicate KeyLe(a: Key, b: Key) {
    |a| == 0 || (|b| > 0 && ((CellLe(a[0], b[0]) && a[0] != b[0]) || (a[0] == b[0] && KeyLe(a[1..], b[1..]))))
  }

  lemma CellLeFacts()
    ensures forall a, b :: CellLe(a, b) || CellLe(b, a)
    ensures forall a, b, c :: CellLe(a, b) && CellLe(b, c) ==> CellLe(a, c)
    ensures forall a, b :: CellLe(a, b) && CellLe(b, a) ==> a == b
  {
    forall a: Option<string>, b: Option<string> ensures CellLe(a, b) || CellLe(b, a) {
      if a.Some? && b.Some? { StrLeTotal(a.value, b.value); }
    }
    forall a: Option<string>, b: Option<string>, c: Option<string> | CellLe(a, b) && CellLe(b, c) ensures CellLe(a, c) {
      if a.Some? && b.Some? && c.Some? { StrLeTransitive(a.value, b.value, c.value); }
    }
    forall a: Option<string>, b: Option<string> | CellLe(a, b) && CellLe(b, a) ensures a == b {
      if a.Some? && b.Some? { StrLeAntisymmetric(a.value, b.value); }
    }
  }

  lemma {:induction false} KeyLeTotal(a: Key, b: Key)
    ensures KeyLe(a, b) || KeyLe(b, a)
  {
    if |a| > 0 && |b| > 0 {
      CellLeFacts();
      if a[0] == b[0] {
        KeyLeTotal(a[1..], b[1..]);
      }
    }
  }

  lemma {:induction false} KeyLeTransitive(a: Key, b: Key, c: Key)
    requires KeyLe(a, b) && KeyLe(b, c)
    ensures KeyLe(a, c)
  {
    if |a| > 0 {
      CellLeFacts();
      if a[0] == b[0] && b[0] == c[0] {
        KeyLeTransitive(a[1..], b[1..], c[1..]);
      }
    }
  }

  lemma {:induction false} KeyLeAntisymmetric(a: Key, b: Key)
    requires KeyLe(a, b) && KeyLe(b, a)
    ensures a == b
  {
    if |a| > 0 && |b| > 0 {
      CellLeFacts();
      KeyLeAntisymmetric(a[1..], b[1..]);
      assert a == [a[0]] + a[1..] && b == [b[0]] + b[1..];
    }
  }

  lemma KeyLeTotalPreorder()
    ensures TotalPreorder(KeyLe)
    ensures forall a, b :: KeyLe(a, b) && KeyLe(b, a) ==> a == b
  {
    forall a: Key, b: Key ensures KeyLe(a, b) || KeyLe(b, a) {
      KeyLeTotal(a, b);
    }
    forall a: Key, b: Key, c: Key | KeyLe(a, b) && KeyLe(b, c) ensures KeyLe(a, c) {
      KeyLeTransitive(a, b, c);
    }
    forall a: Key, b: Key | KeyLe(a, b) && KeyLe(b, a) ensures a == b {
      KeyLeAntisymmetric(a, b);
    }
  }

  // ---------------------------------------------------------------------
  // Candidates and their keys
  // ---------------------------------------------------------------------

  /** df.duplicated(cols_to_check, keep=False): another row has the same
      key values, NaN matching NaN. */
  predicate Duplicated(rows: seq<DupRow>, i: nat)
    requires i < |rows|
  {
    exists j :: 0 <= j < |rows| && j != i && rows[j].keys == rows[i].keys
  }

  /** The rows of dupdf among the first n, in table order. */
  function Candidates(rows: seq<DupRow>, n: nat): (r: seq<nat>)
    requires n <= |rows|
    ensures forall p :: 0 <= p < |r| ==> r[p] < n && Duplicated(rows, r[p])
    ensures forall i :: 0 <= i < n && Duplicated(rows, i) ==> i in r
    ensures Increasing(r)
  {
    if n == 0 then [] else Candidates(rows, n - 1) + (if Duplicated(rows, n - 1) then [n - 1] else [])
  }

  /** Strictly ascending, hence without repeats. */
  predicate Increasing(s: seq<nat>) {
    forall p, q :: 0 <= p < q < |s| ==> s[p] < s[q]
  }

  /** The Processos value of a row (lines 203-208). */
  function ProcessOf(row: DupRow, filings: seq<Filing>): string {
    if row.result == Some("Positiva") then Processes(filings, row.name) else ""
  }

  /** The groupby key of a row: its key values, then Processos. */
  function FullKey(row: DupRow, filings: seq<Filing>): Key {
    row.keys + [Some(ProcessOf(row, filings))]
  }

  /** The groupby keys of the rows of dupdf. */
  function KeysOf(rows: seq<DupRow>, cands: seq<nat>, procs: seq<string>): (r: seq<Key>)
    requires |procs| == |cands| && forall p :: 0 <= p < |cands| ==> cands[p] < |rows|
    ensures |r| == |cands|
  {
    seq(|cands|, p requires 0 <= p < |cands| => rows[cands[p]].keys + [Some(procs[p])])
  }

  // ---------------------------------------------------------------------
  // groupby(cols_to_check + ['Processos'], dropna=False)
  // ---------------------------------------------------------------------

  /** The rows of dupdf whose key is `key`, in table order. */
  function Members(cands: seq<nat>, keys: seq<Key>, key: Key): (r: seq<nat>)
    requires |cands| == |keys|
    ensures forall i :: i in r <==> exists p :: 0 <= p < |cands| && cands[p] == i && keys[p] == key
    ensures Increasing(cands) ==> Increasing(r)
  {
    if cands == [] then []
    else
      var n := |cands| - 1;
      var init := Members(cands[..n], keys[..n], key);
      assert forall p :: 0 <= p < n ==> cands[..n][p] == cands[p] && keys[..n][p] == keys[p];
      assert Increasing(cands) ==> Increasing(cands[..n]) && forall i :: i in init ==> i < cands[n];
      AppendIncreasing(init, cands[n]);
      init + (if keys[n] == key then [cands[n]] else [])
  }

  lemma AppendIncreasing(s: seq<nat>, c: nat)
    ensures Increasing(s) && (forall i :: i in s ==> i < c) ==> Increasing(s + [c])
  {
    if Increasing(s) && forall i :: i in s ==> i < c {
      forall p, q | 0 <= p < q < |s| + 1 ensures (s + [c])[p] < (s + [c])[q] {
        assert s[p] in s;
      }
    }
  }

  /** One group of the groupby: its key and its rows. */
  datatype Group = Group(key: Key, members: seq<nat>)

  /** The keys groupby forms groups for: the distinct keys, in strictly
      ascending order (NaN last). */
  function GroupKeys(keys: seq<Key>): (ks: seq<Key>)
    ensures forall k :: k in ks <==> k in keys
    ensures forall a, b :: 0 <= a < b < |ks| ==> KeyLe(ks[a], ks[b]) && ks[a] != ks[b]
  {
    var distinct := Distinct(keys);
    var sorted := SortBy(distinct, KeyLe);
    KeyLeTotalPreorder();
    SortBySorted(distinct, KeyLe);
    PermutationNoDuplicates(distinct, sorted);
    assert forall k :: k in sorted <==> k in keys by {
      forall k ensures k in sorted <==> k in keys {
        assert k in sorted <==> k in multiset(sorted);
        assert k in distinct <==> k in multiset(distinct);
      }
    }
    sorted
  }

  /** The groups in the order of their sorted keys: one group per distinct
      key, in strictly ascending key order, each with its members. */
  function GroupRows(cands: seq<nat>, keys: seq<Key>): (r: seq<Group>)
    requires |cands| == |keys|
    ensures forall t :: 0 <= t < |r| ==> r[t].members == Members(cands, keys, r[t].key)
    ensures forall t :: 0 <= t < |r| ==> r[t].key in keys
    ensures forall p :: 0 <= p < |keys| ==> exists t :: 0 <= t < |r| && r[t].key == keys[p]
    ensures forall a, b :: 0 <= a < b < |r| ==> KeyLe(r[a].key, r[b].key) && r[a].key != r[b].key
  {
    var ks := GroupKeys(keys);
    var r := seq(|ks|, t requires 0 <= t < |ks| => Group(ks[t], Members(cands, keys, ks[t])));
    assert forall p :: 0 <= p < |keys| ==> exists t :: 0 <= t < |r| && r[t].key == keys[p] by {
      forall p | 0 <= p < |keys| ensures exists t :: 0 <= t < |r| && r[t].key == keys[p] {
        assert keys[p] in keys;
        var t :| 0 <= t < |ks| && ks[t] == keys[p];
        assert r[t].key == keys[p];
      }
    }
    r
  }

  // ---------------------------------------------------------------------
  // Numbering the groups (lines 215-226)
  // ---------------------------------------------------------------------

  /** A row of a reported group, with the group's id. */
  datatype Tagged = Tagged(group: nat, row: nat)

  /** The number of groups with more than one member. */
  function BigCount(gs: seq<Group>): nat {
    if gs == [] then 0 else BigCount(gs[..|gs| - 1]) + (if |gs[|gs| - 1].members| > 1 then 1 else 0)
  }

  function Tag(members: seq<nat>, id: nat): (r: seq<Tagged>)
    ensures |r| == |members| && forall k :: 0 <= k < |r| ==> r[k] == Tagged(id, members[k])
  {
    seq(|members|, k requires 0 <= k < |members| => Tagged(id, members[k]))
  }

  /** The reported rows: the groups with more than one member, numbered
      1, 2, 3, ... in group order, each row with its group's id. */
  function Table(gs: seq<Group>): seq<Tagged> {
    if gs == [] then []
    else
      var init := gs[..|gs| - 1];
      var last := gs[|gs| - 1];
      Table(init) + (if |last.members| > 1 then Tag(last.members, 1 + BigCount(init)) else [])
  }

  /** Every reported row comes from a group of two or more, and carries
      that group's id. */
  lemma {:induction false} TableSound(gs: seq<Group>, x: Tagged)
    requires x in Table(gs)
    ensures exists t :: 0 <= t < |gs| && |gs[t].members| > 1 && x.row in gs[t].members
                        && x.group == 1 + BigCount(gs[..t])
  {
    var n := |gs| - 1;
    var init := gs[..n];
    if x in Table(init) {
      TableSound(init, x);
      var t :| 0 <= t < |init| && |init[t].members| > 1 && x.row in init[t].members
               && x.group == 1 + BigCount(init[..t]);
      assert init[t] == gs[t] && init[..t] == gs[..t];
    } else {
      var tag := Tag(gs[n].members, 1 + BigCount(init));
      assert x in tag;
      var k :| 0 <= k < |tag| && tag[k] == x;
      assert x.row == gs[n].members[k];
    }
  }

  /** Every row of a group of two or more is reported with the group's id. */
  lemma TableComplete(gs: seq<Group>, t: nat, r: nat)
    requires t < |gs| && |gs[t].members| > 1 && r in gs[t].members
    ensures Tagged(1 + BigCount(gs[..t]), r) in Table(gs)
  {
    var id := 1 + BigCount(gs[..t]);
    var prefix, tag := Table(gs[..t]), Tag(gs[t].members, id);
    TableStep(gs, t);
    var k :| 0 <= k < |gs[t].members| && gs[t].members[k] == r;
    assert (prefix + tag)[|prefix| + k] == tag[k] == Tagged(id, r);
    TablePrefix(gs, t + 1);
    assert Table(gs)[|prefix| + k] == Tagged(id, r);
  }

  /** The table of the first m groups begins the table of all of them. */
  lemma {:induction false} TablePrefix(gs: seq<Group>, m: nat)
    requires m <= |gs|
    ensures Table(gs[..m]) <= Table(gs)
    decreases |gs| - m
  {
    if m == |gs| {
      assert gs[..m] == gs;
    } else {
      TablePrefix(gs, m + 1);
      assert gs[..m + 1][..m] == gs[..m];
    }
  }

  /** A later group's id is larger than any earlier reported group's id. */
  lemma {:induction false} BigCountGrows(gs: seq<Group>, t1: nat, t2: nat)
    requires t1 < t2 <= |gs| && |gs[t1].members| > 1
    ensures BigCount(gs[..t1]) < BigCount(gs[..t2])
  {
    assert gs[..t2][..t2 - 1] == gs[..t2 - 1];
    if t2 - 1 > t1 {
      BigCountGrows(gs, t1, t2 - 1);
    }
  }

  /** Reported ids lie in 1..BigCount(gs). */
  lemma TableIdsBounded(gs: seq<Group>, x: Tagged)
    requires x in Table(gs)
    ensures 1 <= x.group <= BigCount(gs)
  {
    TableSound(gs, x);
    var t :| 0 <= t < |gs| && |gs[t].members| > 1 && x.row in gs[t].members
             && x.group == 1 + BigCount(gs[..t]);
    BigCountGrows(gs, t, |gs|);
    assert gs[..|gs|] == gs;
  }

  /** Every id in 1..BigCount(gs) is carried by at least two reported rows,
      so the ids run without gaps. */
  lemma {:induction false} TableIdsAttained(gs: seq<Group>, id: nat)
    requires 1 <= id <= BigCount(gs)
    ensures CarriedTwice(Table(gs), id)
  {
    var n := |gs| - 1;
    var init := gs[..n];
    var prefix := Table(init);
    if id <= BigCount(init) {
      TableIdsAttained(init, id);
      var k1, k2 :| 0 <= k1 < k2 < |prefix| && prefix[k1].group == id && prefix[k2].group == id;
      var whole := Table(gs);
      assert whole == prefix + (if |gs[n].members| > 1 then Tag(gs[n].members, 1 + BigCount(init)) else []);
      assert whole[k1] == prefix[k1] && whole[k2] == prefix[k2];
      assert 0 <= k1 < k2 < |whole| && whole[k1].group == id && whole[k2].group == id;
    } else {
      assert |gs[n].members| > 1 && id == 1 + BigCount(init);
      var tag := Tag(gs[n].members, id);
      var whole := Table(gs);
      assert whole == prefix + tag;
      var k1, k2 := |prefix|, |prefix| + 1;
      assert whole[k1] == tag[0] && whole[k2] == tag[1];
      assert 0 <= k1 < k2 < |whole| && whole[k1].group == id && whole[k2].group == id;
    }
  }

  /** Two reported rows with the same id come from the same group. */
  lemma SameIdSameGroup(gs: seq<Group>, x: Tagged, y: Tagged)
    requires x in Table(gs) && y in Table(gs) && x.group == y.group
    ensures exists t :: 0 <= t < |gs| && x.row in gs[t].members && y.row in gs[t].members
  {
    TableSound(gs, x);
    var t1 :| 0 <= t1 < |gs| && |gs[t1].members| > 1 && x.row in gs[t1].members
              && x.group == 1 + BigCount(gs[..t1]);
    TableSound(gs, y);
    var t2 :| 0 <= t2 < |gs| && |gs[t2].members| > 1 && y.row in gs[t2].members
              && y.group == 1 + BigCount(gs[..t2]);
    if t1 < t2 {
      BigCountGrows(gs, t1, t2);
    } else if t2 < t1 {
      BigCountGrows(gs, t2, t1);
    }
  }

  /** The rows of the report. */
  predicate RowsBelow(ts: seq<Tagged>, n: nat) {
    forall k :: 0 <= k < |ts| ==> ts[k].row < n
  }

  function Entries(rows: seq<DupRow>, ts: seq<Tagged>): (r: seq<DupEntry>)
    requires RowsBelow(ts, |rows|)
    ensures |r| == |ts|
    ensures forall k :: 0 <= k < |ts| ==> r[k] == DupEntry(ts[k].group, rows[ts[k].row].report, DuplicateMessage)
  {
    if ts == [] then []
    else
      var n := |ts| - 1;
      assert forall k :: 0 <= k < n ==> ts[..n][k] == ts[k];
      Entries(rows, ts[..n]) + [DupEntry(ts[n].group, rows[ts[n].row].report, DuplicateMessage)]
  }

  lemma TableRowsBelow(gs: seq<Group>, n: nat)
    requires forall t, i :: 0 <= t < |gs| && i in gs[t].members ==> i < n
    ensures RowsBelow(Table(gs), n)
  {
    forall k | 0 <= k < |Table(gs)| ensures Table(gs)[k].row < n {
      TableSound(gs, Table(gs)[k]);
    }
  }

  /** The groupby keys of dupdf, as the rows define them. */
  function FullKeys(rows: seq<DupRow>, filings: seq<Filing>, cands: seq<nat>): (r: seq<Key>)
    requires forall p :: 0 <= p < |cands| ==> cands[p] < |rows|
    ensures |r| == |cands| && forall p :: 0 <= p < |cands| ==> r[p] == FullKey(rows[cands[p]], filings)
  {
    seq(|cands|, p requires 0 <= p < |cands| => FullKey(rows[cands[p]], filings))
  }

  /** The groups of validar_duplicidade. */
  function DupGroups(rows: seq<DupRow>, filings: seq<Filing>): (r: seq<Group>)
    ensures forall t, i :: 0 <= t < |r| && i in r[t].members ==> i < |rows|
  {
    var cands := Candidates(rows, |rows|);
    GroupRows(cands, FullKeys(rows, filings, cands))
  }

  /** The reported rows of validar_duplicidade, with their group ids. */
  function DupTable(rows: seq<DupRow>, filings: seq<Filing>): (r: seq<Tagged>)
    ensures RowsBelow(r, |rows|)
  {
    TableRowsBelow(DupGroups(rows, filings), |rows|);
    Table(DupGroups(rows, filings))
  }

  /** What validar_duplicidade returns. */
  function DuplicateReport(rows: seq<DupRow>, filings: seq<Filing>): seq<DupEntry> {
    Entries(rows, DupTable(rows, filings))
  }

  /** validar_duplicidade (lines 191-235), the save to disk left out. */
  method ValidateDuplicates(rows: seq<DupRow>, filings: seq<Filing>) returns (entries: seq<DupEntry>)
    ensures entries == DuplicateReport(rows, filings)
  {
    var cands := Candidates(rows, |rows|);
    var procs := ProcessColumn(rows, filings, cands);
    var keys := KeysOf(rows, cands, procs);
    assert keys == FullKeys(rows, filings, cands);
    var groups := GroupRows(cands, keys);
    entries := NumberGroups(rows, groups);
  }

  /** The Processos column of dupdf (lines 201-208). */
  method ProcessColumn(rows: seq<DupRow>, filings: seq<Filing>, cands: seq<nat>) returns (procs: seq<string>)
    requires forall p :: 0 <= p < |cands| ==> cands[p] < |rows|
    ensures |procs| == |cands| && forall p :: 0 <= p < |cands| ==> procs[p] == ProcessOf(rows[cands[p]], filings)
  {
    procs := [];
    var p := 0;
    while p < |cands|
      invariant 0 <= p <= |cands| && |procs| == p
      invariant forall q :: 0 <= q < p ==> procs[q] == ProcessOf(rows[cands[q]], filings)
    {
      var s := RowProcesses(rows[cands[p]], filings);
      procs := procs + [s];
      p := p + 1;
    }
  }

  /** The apply of lines 203-208 on one row: monta_processos for a
      Positiva result, '' otherwise. */
  method RowProcesses(row: DupRow, filings: seq<Filing>) returns (s: string)
    ensures s == ProcessOf(row, filings)
  {
    s := "";
    if row.result == Some("Positiva") {
      s := BuildProcesses(filings, row.name);
    }
  }

  /** The loop of lines 218-226: the groups of two or more, numbered from 1. */
  method NumberGroups(rows: seq<DupRow>, groups: seq<Group>) returns (entries: seq<DupEntry>)
    requires forall t, i :: 0 <= t < |groups| && i in groups[t].members ==> i < |rows|
    ensures RowsBelow(Table(groups), |rows|) && entries == Entries(rows, Table(groups))
  {
    entries := [];
    var group := 1;
    var t := 0;
    while t < |groups|
      invariant 0 <= t <= |groups|
      invariant group == 1 + BigCount(groups[..t])
      invariant RowsBelow(Table(groups[..t]), |rows|)
      invariant entries == Entries(rows, Table(groups[..t]))
    {
      var members := groups[t].members;
      TableStep(groups, t);
      if |members| > 1 {
        var block := EmitGroup(rows, members, group);
        EntriesAppend(rows, Table(groups[..t]), Tag(members, group));
        entries := entries + block;
        group := group + 1;
      }
      t := t + 1;
    }
    assert groups[..t] == groups;
  }

  /** Table and BigCount one group further. */
  lemma TableStep(gs: seq<Group>, t: nat)
    requires t < |gs|
    ensures var big := |gs[t].members| > 1;
      BigCount(gs[..t + 1]) == BigCount(gs[..t]) + (if big then 1 else 0)
      && Table(gs[..t + 1]) == Table(gs[..t]) + (if big then Tag(gs[t].members, 1 + BigCount(gs[..t])) else [])
  {
    assert gs[..t + 1][..t] == gs[..t];
  }

  /** The inner loop of lines 220-223: one entry per row of the group. */
  method EmitGroup(rows: seq<DupRow>, members: seq<nat>, group: nat) returns (block: seq<DupEntry>)
    requires forall i :: i in members ==> i < |rows|
    ensures RowsBelow(Tag(members, group), |rows|) && block == Entries(rows, Tag(members, group))
  {
    var tag := Tag(members, group);
    assert forall k :: 0 <= k < |members| ==> members[k] in members;
    block := [];
    var m := 0;
    while m < |members|
      invariant 0 <= m <= |members|
      invariant block == Entries(rows, tag[..m])
    {
      assert tag[..m + 1][..m] == tag[..m];
      block := block + [DupEntry(group, rows[members[m]].report, DuplicateMessage)];
      m := m + 1;
    }
    assert tag[..m] == tag;
  }

  lemma EntriesAppend(rows: seq<DupRow>, a: seq<Tagged>, b: seq<Tagged>)
    requires RowsBelow(a, |rows|) && RowsBelow(b, |rows|)
    ensures RowsBelow(a + b, |rows|) && Entries(rows, a + b) == Entries(rows, a) + Entries(rows, b)
  {
    assert forall k :: 0 <= k < |a + b| ==> (a + b)[k] == if k < |a| then a[k] else b[k - |a|];
  }

  // ---------------------------------------------------------------------
  // What the report promises
  // ---------------------------------------------------------------------

  /** The rows of a group all carry the group's key. */
  lemma MemberKey(rows: seq<DupRow>, filings: seq<Filing>, t: nat, i: nat)
    requires t < |DupGroups(rows, filings)| && i in DupGroups(rows, filings)[t].members
    ensures i < |rows| && FullKey(rows[i], filings) == DupGroups(rows, filings)[t].key
  {
    var cands := Candidates(rows, |rows|);
    var keys := FullKeys(rows, filings, cands);
    var g := GroupRows(cands, keys)[t];
    assert i in Members(cands, keys, g.key);
    var p :| 0 <= p < |cands| && cands[p] == i && keys[p] == g.key;
  }

  /** Keys built from equal parts are equal part by part. */
  lemma KeyParts(a: Key, x: Option<string>, b: Key, y: Option<string>)
    requires a + [x] == b + [y]
    ensures a == b && x == y
  {
    assert a == (a + [x])[..|a|];
    assert b == (b + [y])[..|b|];
  }

  /** A sequence holding two different values has two elements at least. */
  lemma {:induction false} TwoValues(s: seq<nat>, a: nat, b: nat)
    requires a in s && b in s && a != b
    ensures |s| >= 2
  {
    if s[0] == a {
      assert b in s[1..];
    } else {
      assert a in s[1..];
    }
  }

  /** A row is reported only if another row has the same key values and
      the same process string. */
  lemma ReportedRowHasTwin(rows: seq<DupRow>, filings: seq<Filing>, x: Tagged)
    requires x in DupTable(rows, filings)
    ensures x.row < |rows|
    ensures exists j :: 0 <= j < |rows| && j != x.row && FullKey(rows[j], filings) == FullKey(rows[x.row], filings)
  {
    var gs := DupGroups(rows, filings);
    TableSound(gs, x);
    var t :| 0 <= t < |gs| && |gs[t].members| > 1 && x.row in gs[t].members;
    GroupMembersIncreasing(rows, filings, t);
    var j := OtherMember(gs[t].members, x.row);
    MemberKey(rows, filings, t, x.row);
    MemberKey(rows, filings, t, j);
  }

  /** The rows of a group are listed in table order. */
  lemma GroupMembersIncreasing(rows: seq<DupRow>, filings: seq<Filing>, t: nat)
    requires t < |DupGroups(rows, filings)|
    ensures Increasing(DupGroups(rows, filings)[t].members)
  {
    var cands := Candidates(rows, |rows|);
    var keys := FullKeys(rows, filings, cands);
    assert DupGroups(rows, filings)[t].members == Members(cands, keys, GroupRows(cands, keys)[t].key);
  }

  /** A group of two or more rows holds a row other than any given one. */
  lemma OtherMember(ms: seq<nat>, r: nat) returns (j: nat)
    requires Increasing(ms) && |ms| > 1
    ensures j in ms && j != r
  {
    j := if ms[0] != r then ms[0] else ms[1];
  }

  /** Two different rows with the same key values and process string are
      both reported, under one group id. */
  lemma TwinsReportedTogether(rows: seq<DupRow>, filings: seq<Filing>, i: nat, j: nat)
    requires i < |rows| && j < |rows| && i != j
    requires FullKey(rows[i], filings) == FullKey(rows[j], filings)
    ensures exists id :: Tagged(id, i) in DupTable(rows, filings) && Tagged(id, j) in DupTable(rows, filings)
  {
    var gs := DupGroups(rows, filings);
    var t := TwinsGroup(rows, filings, i, j);
    TwoValues(gs[t].members, i, j);
    TableComplete(gs, t, i);
    TableComplete(gs, t, j);
  }

  /** Two different rows with one full key are members of one group. */
  lemma TwinsGroup(rows: seq<DupRow>, filings: seq<Filing>, i: nat, j: nat) returns (t: nat)
    requires i < |rows| && j < |rows| && i != j
    requires FullKey(rows[i], filings) == FullKey(rows[j], filings)
    ensures t < |DupGroups(rows, filings)|
    ensures i in DupGroups(rows, filings)[t].members && j in DupGroups(rows, filings)[t].members
  {
    KeyParts(rows[i].keys, Some(ProcessOf(rows[i], filings)), rows[j].keys, Some(ProcessOf(rows[j], filings)));
    assert Duplicated(rows, i) && Duplicated(rows, j);
    var cands := Candidates(rows, |rows|);
    var keys := FullKeys(rows, filings, cands);
    var pi :| 0 <= pi < |cands| && cands[pi] == i;
    var pj :| 0 <= pj < |cands| && cands[pj] == j;
    SharedKeyGroup(cands, keys, pi, pj);
    var gs := GroupRows(cands, keys);
    t :| 0 <= t < |gs| && i in gs[t].members && j in gs[t].members;
  }

  /** Two rows of dupdf with one key land in one group. */
  lemma SharedKeyGroup(cands: seq<nat>, keys: seq<Key>, p: nat, q: nat)
    requires |cands| == |keys| && p < |cands| && q < |cands| && keys[p] == keys[q]
    ensures exists t :: 0 <= t < |GroupRows(cands, keys)| && cands[p] in GroupRows(cands, keys)[t].members
                        && cands[q] in GroupRows(cands, keys)[t].members
  {
    var gs := GroupRows(cands, keys);
    var t :| 0 <= t < |gs| && gs[t].key == keys[p];
    var ms := Members(cands, keys, keys[p]);
    assert gs[t].members == ms;
    assert cands[p] in ms && cands[q] in ms;
  }

  /** Two rows reported under one id share their key values and process
      string; in particular two Positiva rows whose process numbers differ
      are never grouped together. */
  lemma SameGroupSameKey(rows: seq<DupRow>, filings: seq<Filing>, x: Tagged, y: Tagged)
    requires x in DupTable(rows, filings) && y in DupTable(rows, filings) && x.group == y.group
    ensures x.row < |rows| && y.row < |rows|
    ensures rows[x.row].keys == rows[y.row].keys
    ensures ProcessOf(rows[x.row], filings) == ProcessOf(rows[y.row], filings)
  {
    var gs := DupGroups(rows, filings);
    SameIdSameGroup(gs, x, y);
    var t :| 0 <= t < |gs| && x.row in gs[t].members && y.row in gs[t].members;
    MemberKey(rows, filings, t, x.row);
    MemberKey(rows, filings, t, y.row);
    var rx, ry := rows[x.row], rows[y.row];
    KeyParts(rx.keys, Some(ProcessOf(rx, filings)), ry.keys, Some(ProcessOf(ry, filings)));
  }

  /** The group ids run 1, 2, ..., G without gaps, and every id is carried
      by two rows at least. */
  lemma GroupIds(rows: seq<DupRow>, filings: seq<Filing>)
    ensures var table, count := DupTable(rows, filings), BigCount(DupGroups(rows, filings));
      (forall k :: 0 <= k < |table| ==> 1 <= table[k].group <= count)
      && forall id :: 1 <= id <= count ==> CarriedTwice(table, id)
  {
    var gs := DupGroups(rows, filings);
    forall k | 0 <= k < |Table(gs)| ensures 1 <= Table(gs)[k].group <= BigCount(gs) {
      TableIdsBounded(gs, Table(gs)[k]);
    }
    forall id | 1 <= id <= BigCount(gs) ensures CarriedTwice(Table(gs), id) {
      TableIdsAttained(gs, id);
    }
  }

  /** Two rows of the table carry the id. */
  predicate CarriedTwice(table: seq<Tagged>, id: nat) {
    exists k1, k2 :: 0 <= k1 < k2 < |table| && table[k1].group == id && table[k2].group == id
  }
}
