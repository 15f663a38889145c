/** validar_cnpj_razao: the names on the certificates of one tax ID
    (CPF/CNPJ) must agree; a certificate without a tax ID gets one, in
    place, when its name points to exactly one, and is reported otherwise. */
module Reconcile {
  import opened Wrappers
  import opened Text
  import opened Sorting
  import opened Seqs

  /** One certificate row: the tax ID column, the name column, the
      reported column and the 'Url' column. None stands for NaN. */
  datatype Cert = Cert(taxId: Option<string>, name: Option<string>, report: string, url: Option<string>)

  /** One report row: the reported value, the message and the reference
      url ('Url Referência'); None is the NaN of a max over no url. */
  datatype RefEntry = RefEntry(url: string, message: string, refUrl: Option<string>)

  /** A similarity score as process.extract reports it. */
  type Percent = p: int | 0 <= p <= 100

  /** The similarity of a choice to a query behind process.extract. */
  type Scorer = (string, string) -> Percent

  function DistinctNamesMessage(name: string, other: string): string {
    "Mesmo CPF/CNPJ com Nomes/Razão Social distintos: [ " + name + " ] / [ " + other + " ]"
  }

  const NoIdNoNameMessage: string := "Certidão sem CPF/CNPJ e sem Nome/Razão Social"

  function UpdatedMessage(id: string): string {
    "Certidão sem CPF/CNPJ, porém identificável e atualizado para [ " + id + " ]"
  }

  /** The two "pode pertencer" messages: 1 for candidates found under the
      very same name, 2 for candidates found under similar names. */
  function AmbiguousMessage(name: string, id: string, exact: bool): string {
    "Certidão sem CPF/CNPJ, mas Nome/Razão social " + (if exact then "1" else "2")
      + " [ " + name + " ] pode pertencer ao CPF/CNPJ [ " + id + " ]"
  }

  function UnidentifiableMessage(name: string): string {
    "Certidão com Nome/Razão Social, mas sem CPF/CNPJ identificável [ " + name + " ]"
  }

  /** The name test of lines 478 and 501: NaN and '' count as no name. */
  predicate HasName(c: Cert) {
    c.name.Some? && c.name.value != ""
  }

  // ---------------------------------------------------------------------
  // Lookups in the current table
  // ---------------------------------------------------------------------

  /** The tax IDs present in a table. */
  ghost function IdsOf(t: seq<Cert>): set<string> {
    set j | 0 <= j < |t| && t[j].taxId.Some? :: t[j].taxId.value
  }

  /** Every name of the table, NaN dropped, in row order. */
  function AllNames(t: seq<Cert>): (r: seq<string>)
    ensures forall x :: x in r <==> exists j :: 0 <= j < |t| && t[j].name == Some(x)
  {
    if t == [] then []
    else
      var n := |t| - 1;
      assert forall j :: 0 <= j < n ==> t[..n][j] == t[j];
      AllNames(t[..n]) + (if t[n].name.Some? then [t[n].name.value] else [])
  }

  /** The names, NaN dropped, of the rows under one tax ID, in row order. */
  function NamesUnderAll(t: seq<Cert>, id: string): (r: seq<string>)
    ensures forall x :: x in r <==> exists j :: 0 <= j < |t| && t[j].taxId == Some(id) && t[j].name == Some(x)
  {
    if t == [] then []
    else
      var n := |t| - 1;
      assert forall j :: 0 <= j < n ==> t[..n][j] == t[j];
      NamesUnderAll(t[..n], id) + (if t[n].taxId == Some(id) && t[n].name.Some? then [t[n].name.value] else [])
  }

  /** Row k is the first row under tax ID id with the name x. */
  predicate FirstNamedUnder(t: seq<Cert>, id: string, x: string, k: int) {
    0 <= k < |t| && t[k].taxId == Some(id) && t[k].name == Some(x)
    && forall j :: 0 <= j < k ==> !(t[j].taxId == Some(id) && t[j].name == Some(x))
  }

  /** r lists names in the order of their first rows under the tax ID: a
      name listed before another is on a row under the tax ID above the
      other's first such row. */
  ghost predicate NamesInTableOrder(t: seq<Cert>, id: string, r: seq<string>) {
    forall i, j, k :: 0 <= i < j < |r| && FirstNamedUnder(t, id, r[j], k) ==>
      exists l :: 0 <= l < k && t[l].taxId == Some(id) && t[l].name == Some(r[i])
  }

  /** df.loc[ref == id][name].dropna().unique() (line 481): each name under
      the tax ID once, in the order of first appearance in the table. */
  function NamesUnder(t: seq<Cert>, id: string): (r: seq<string>)
    ensures NoDuplicates(r)
    ensures forall x :: x in r <==> exists j :: 0 <= j < |t| && t[j].taxId == Some(id) && t[j].name == Some(x)
    ensures NamesInTableOrder(t, id, r)
  {
    var r := Distinct(NamesUnderAll(t, id));
    NamesUnderOrder(t, id, r);
    r
  }

  /** The names of a prefix of the table start the names of the table. */
  lemma {:induction false} NamesUnderAllPrefix(t: seq<Cert>, id: string, k: nat)
    requires k <= |t|
    ensures var pre := NamesUnderAll(t[..k], id);
      |pre| <= |NamesUnderAll(t, id)| && pre == NamesUnderAll(t, id)[..|pre|]
    decreases |t|
  {
    if k == |t| {
      assert t[..k] == t;
    } else {
      var n := |t| - 1;
      var init := t[..n];
      NamesUnderAllPrefix(init, id, k);
      assert init[..k] == t[..k];
      assert NamesUnderAll(t, id) == NamesUnderAll(init, id) + (if t[n].taxId == Some(id) && t[n].name.Some? then [t[n].name.value] else []);
    }
  }

  /** The first row with a name is where the name first shows up in the
      list of names. */
  lemma NamesUnderFirst(t: seq<Cert>, id: string, y: string, k: nat)
    requires FirstNamedUnder(t, id, y, k)
    ensures FirstAt(NamesUnderAll(t, id), y, |NamesUnderAll(t[..k], id)|)
  {
    var pre := NamesUnderAll(t[..k], id);
    var all := NamesUnderAll(t, id);
    NamesUnderNotBefore(t, id, y, k);
    NamesUnderAppend(t, id, k);
    NamesUnderAllPrefix(t, id, k + 1);
    var pre1 := NamesUnderAll(t[..k + 1], id);
    assert pre1 == pre + [y] && pre1 == all[..|pre1|];
    assert all[|pre|] == pre1[|pre|] == y;
    assert all[..|pre|] == pre1[..|pre|] == pre;
  }

  lemma NamesUnderNotBefore(t: seq<Cert>, id: string, y: string, k: nat)
    requires FirstNamedUnder(t, id, y, k)
    ensures y !in NamesUnderAll(t[..k], id)
  {
    assert forall j :: 0 <= j < k ==> t[..k][j] == t[j];
  }

  lemma NamesUnderAppend(t: seq<Cert>, id: string, k: nat)
    requires 0 <= k < |t| && t[k].taxId == Some(id) && t[k].name.Some?
    ensures NamesUnderAll(t[..k + 1], id) == NamesUnderAll(t[..k], id) + [t[k].name.value]
  {
    var u := t[..k + 1];
    assert u[..k] == t[..k] && u[k] == t[k];
  }

  lemma NamesUnderOrder(t: seq<Cert>, id: string, r: seq<string>)
    requires r == Distinct(NamesUnderAll(t, id))
    ensures NamesInTableOrder(t, id, r)
  {
    forall i, j, k | 0 <= i < j < |r| && FirstNamedUnder(t, id, r[j], k)
      ensures exists l :: 0 <= l < k && t[l].taxId == Some(id) && t[l].name == Some(r[i])
    {
      NamesUnderFirst(t, id, r[j], k);
      NamesUnderAllPrefix(t, id, k);
      NamesUnderEarlier(t, id, r[i], k);
    }
  }

  /** A name among those of the first k rows is on one of those rows. */
  lemma NamesUnderEarlier(t: seq<Cert>, id: string, x: string, k: nat)
    requires k <= |t| && x in NamesUnderAll(t[..k], id)
    ensures exists l :: 0 <= l < k && t[l].taxId == Some(id) && t[l].name == Some(x)
  {
    var l :| 0 <= l < k && t[..k][l].taxId == Some(id) && t[..k][l].name == Some(x);
    assert t[l] == t[..k][l];
  }

  /** Does the row carry one of the names? */
  predicate NamedIn(c: Cert, names: seq<string>) {
    c.name.Some? && c.name.value in names
  }

  /** The tax IDs, NaN dropped, of the rows whose name is one of `names`,
      in row order. */
  function IdsNamedAll(t: seq<Cert>, names: seq<string>): (r: seq<string>)
    ensures forall x :: x in r <==> exists j :: 0 <= j < |t| && NamedIn(t[j], names) && t[j].taxId == Some(x)
  {
    if t == [] then []
    else
      var n := |t| - 1;
      assert forall j :: 0 <= j < n ==> t[..n][j] == t[j];
      IdsNamedAll(t[..n], names) + (if NamedIn(t[n], names) && t[n].taxId.Some? then [t[n].taxId.value] else [])
  }

  /** Row k is the first row with one of the names and the tax ID x. */
  predicate FirstIdNamed(t: seq<Cert>, names: seq<string>, x: string, k: int) {
    0 <= k < |t| && NamedIn(t[k], names) && t[k].taxId == Some(x)
    && forall j :: 0 <= j < k ==> !(NamedIn(t[j], names) && t[j].taxId == Some(x))
  }

  /** r lists tax IDs in the order of their first rows with one of the
      names: a tax ID listed before another is on such a row above the
      other's first one. */
  ghost predicate IdsInTableOrder(t: seq<Cert>, names: seq<string>, r: seq<string>) {
    forall i, j, k :: 0 <= i < j < |r| && FirstIdNamed(t, names, r[j], k) ==>
      exists l :: 0 <= l < k && NamedIn(t[l], names) && t[l].taxId == Some(r[i])
  }

  /** df[name.isin(names)][ref].dropna().unique() (lines 515 and 536): each
      tax ID of the rows with one of the names once, in the order of first
      appearance in the table. */
  function IdsNamed(t: seq<Cert>, names: seq<string>): (r: seq<string>)
    ensures NoDuplicates(r)
    ensures forall x :: x in r <==> exists j :: 0 <= j < |t| && NamedIn(t[j], names) && t[j].taxId == Some(x)
    ensures IdsInTableOrder(t, names, r)
  {
    var r := Distinct(IdsNamedAll(t, names));
    IdsNamedOrder(t, names, r);
    r
  }

  /** The tax IDs of a prefix of the table start those of the table. */
  lemma {:induction false} IdsNamedAllPrefix(t: seq<Cert>, names: seq<string>, k: nat)
    requires k <= |t|
    ensures var pre := IdsNamedAll(t[..k], names);
      |pre| <= |IdsNamedAll(t, names)| && pre == IdsNamedAll(t, names)[..|pre|]
    decreases |t|
  {
    if k == |t| {
      assert t[..k] == t;
    } else {
      var n := |t| - 1;
      var init := t[..n];
      IdsNamedAllPrefix(init, names, k);
      assert init[..k] == t[..k];
      assert IdsNamedAll(t, names) == IdsNamedAll(init, names) + (if NamedIn(t[n], names) && t[n].taxId.Some? then [t[n].taxId.value] else []);
    }
  }

  lemma IdsNamedFirst(t: seq<Cert>, names: seq<string>, y: string, k: nat)
    requires FirstIdNamed(t, names, y, k)
    ensures FirstAt(IdsNamedAll(t, names), y, |IdsNamedAll(t[..k], names)|)
  {
    var pre := IdsNamedAll(t[..k], names);
    var all := IdsNamedAll(t, names);
    IdsNamedNotBefore(t, names, y, k);
    IdsNamedAppend(t, names, k);
    IdsNamedAllPrefix(t, names, k + 1);
    var pre1 := IdsNamedAll(t[..k + 1], names);
    assert pre1 == pre + [y] && pre1 == all[..|pre1|];
    assert all[|pre|] == pre1[|pre|] == y;
    assert all[..|pre|] == pre1[..|pre|] == pre;
  }

  lemma IdsNamedNotBefore(t: seq<Cert>, names: seq<string>, y: string, k: nat)
    requires FirstIdNamed(t, names, y, k)
    ensures y !in IdsNamedAll(t[..k], names)
  {
    assert forall j :: 0 <= j < k ==> t[..k][j] == t[j];
  }

  lemma IdsNamedAppend(t: seq<Cert>, names: seq<string>, k: nat)
    requires 0 <= k < |t| && NamedIn(t[k], names) && t[k].taxId.Some?
    ensures IdsNamedAll(t[..k + 1], names) == IdsNamedAll(t[..k], names) + [t[k].taxId.value]
  {
    var u := t[..k + 1];
    assert u[..k] == t[..k] && u[k] == t[k];
  }

  lemma IdsNamedOrder(t: seq<Cert>, names: seq<string>, r: seq<string>)
    requires r == Distinct(IdsNamedAll(t, names))
    ensures IdsInTableOrder(t, names, r)
  {
    forall i, j, k | 0 <= i < j < |r| && FirstIdNamed(t, names, r[j], k)
      ensures exists l :: 0 <= l < k && NamedIn(t[l], names) && t[l].taxId == Some(r[i])
    {
      IdsNamedFirst(t, names, r[j], k);
      IdsNamedAllPrefix(t, names, k);
      IdsNamedEarlier(t, names, r[i], k);
    }
  }

  /** A tax ID among those of the first k rows is on one of those rows. */
  lemma IdsNamedEarlier(t: seq<Cert>, names: seq<string>, x: string, k: nat)
    requires k <= |t| && x in IdsNamedAll(t[..k], names)
    ensures exists l :: 0 <= l < k && NamedIn(t[l], names) && t[l].taxId == Some(x)
  {
    var l :| 0 <= l < k && NamedIn(t[..k][l], names) && t[..k][l].taxId == Some(x);
    assert t[l] == t[..k][l];
  }

  /** Is the row one of those whose url the reference is taken from? */
  predicate RefersTo(c: Cert, names: seq<string>, id: string) {
    NamedIn(c, names) && c.taxId == Some(id)
  }

  /** The urls, NaN dropped, of the rows with one of `names` and tax ID id. */
  function UrlsOf(t: seq<Cert>, names: seq<string>, id: string): (r: seq<string>)
    ensures forall u :: u in r <==> exists j :: 0 <= j < |t| && RefersTo(t[j], names, id) && t[j].url == Some(u)
  {
    if t == [] then []
    else
      var n := |t| - 1;
      assert forall j :: 0 <= j < n ==> t[..n][j] == t[j];
      UrlsOf(t[..n], names, id) + (if RefersTo(t[n], names, id) && t[n].url.Some? then [t[n].url.value] else [])
  }

  /** The greatest string, None for none (Series.max() skipping NaN). */
  function MaxString(s: seq<string>): Option<string> {
    if s == [] then None
    else
      var m := MaxString(s[..|s| - 1]);
      var last := s[|s| - 1];
      if m.None? || StrLe(m.value, last) then Some(last) else m
  }

  lemma {:induction false} MaxStringIsMax(s: seq<string>)
    ensures MaxString(s).None? <==> s == []
    ensures MaxString(s).Some? ==> MaxString(s).value in s && forall x :: x in s ==> StrLe(x, MaxString(s).value)
  {
    if s != [] {
      var init, last := s[..|s| - 1], s[|s| - 1];
      assert s == init + [last];
      assert forall x :: x in s ==> x == last || x in init;
      MaxStringIsMax(init);
      var m := MaxString(init);
      if m.None? {
        StrLeTotal(last, last);
      } else if StrLe(m.value, last) {
        StrLeTotal(last, last);
        forall x | x in init ensures StrLe(x, last) {
          StrLeTransitive(x, m.value, last);
        }
      } else {
        StrLeTotal(m.value, last);
        assert MaxString(s) == m;
      }
    }
  }

  /** The reference url: the max of 'Url' over the rows with one of `names`
      and tax ID id. */
  function RefUrl(t: seq<Cert>, names: seq<string>, id: string): Option<string> {
    MaxString(UrlsOf(t, names, id))
  }

  /** The reference url is the url of one of the rows with one of the names
      and the tax ID, and no such row has a greater one; it is NaN exactly
      when none of those rows has a url. */
  lemma RefUrlMeaning(t: seq<Cert>, names: seq<string>, id: string)
    ensures RefUrl(t, names, id).None? <==>
      forall j :: 0 <= j < |t| && RefersTo(t[j], names, id) ==> t[j].url.None?
    ensures RefUrl(t, names, id).Some? ==>
      (exists j :: 0 <= j < |t| && RefersTo(t[j], names, id) && t[j].url == RefUrl(t, names, id))
      && forall j :: 0 <= j < |t| && RefersTo(t[j], names, id) && t[j].url.Some? ==>
           StrLe(t[j].url.value, RefUrl(t, names, id).value)
  {
    var urls := UrlsOf(t, names, id);
    MaxStringIsMax(urls);
    if RefUrl(t, names, id).Some? {
      forall j | 0 <= j < |t| && RefersTo(t[j], names, id) && t[j].url.Some?
        ensures StrLe(t[j].url.value, RefUrl(t, names, id).value)
      {
        assert t[j].url.value in urls;
      }
    }
  }

  // ---------------------------------------------------------------------
  // Rows that arrive with a tax ID (lines 477-491)
  // ---------------------------------------------------------------------

  /** The order of process.extract: higher score first, ties in the order
      of the choices. */
  function ByScore(query: string, score: Scorer): (string, string) -> bool {
    (a: string, b: string) => score(query, a) >= score(query, b)
  }

  lemma ByScoreTotal(query: string, score: Scorer)
    ensures TotalPreorder(ByScore(query, score))
  {
  }

  /** The names under the row's tax ID that score below the threshold
      against the row's name, in process.extract order. */
  function Inconsistent(t: seq<Cert>, name: string, id: string, score: Scorer, threshold: int): (r: seq<string>)
    ensures NoDuplicates(r)
    ensures forall x :: x in r <==> x in NamesUnder(t, id) && score(name, x) < threshold
    ensures SortedBy(r, ByScore(name, score))
    ensures forall i, j :: 0 <= i < j < |r| && score(name, r[i]) == score(name, r[j]) ==>
              Precedes(NamesUnder(t, id), r[i], r[j])
  {
    var names := NamesUnder(t, id);
    var ranked := SortBy(names, ByScore(name, score));
    var below := (x: string) => score(name, x) < threshold;
    assert forall x :: x in ranked <==> x in names by {
      forall x ensures x in ranked <==> x in names {
        assert x in ranked <==> x in multiset(ranked);
        assert x in names <==> x in multiset(names);
      }
    }
    PermutationNoDuplicates(names, ranked);
    FilterNoDuplicates(ranked, below);
    ByScoreTotal(name, score);
    SortBySorted(names, ByScore(name, score));
    FilterSorted(ranked, below, ByScore(name, score));
    var r := Filter(ranked, below);
    TiesKeepOrder(names, ranked, r, name, score);
    r
  }

  /** Names with equal scores leave the ranking in the order of the choices,
      as process.extract's stable ranking keeps them. */
  lemma TiesKeepOrder(names: seq<string>, ranked: seq<string>, r: seq<string>, name: string, score: Scorer)
    requires ranked == SortBy(names, ByScore(name, score))
    requires Subsequence(r, ranked)
    ensures forall i, j :: 0 <= i < j < |r| && score(name, r[i]) == score(name, r[j]) ==>
              Precedes(names, r[i], r[j])
  {
    SubsequencePrecedes(r, ranked);
    SortByStable(names, ByScore(name, score));
    forall i, j | 0 <= i < j < |r| && score(name, r[i]) == score(name, r[j])
      ensures Precedes(names, r[i], r[j])
    {
      assert Precedes(ranked, r[i], r[j]);
      var a, b :| 0 <= a < b < |ranked| && ranked[a] == r[i] && ranked[b] == r[j];
      assert ByScore(name, score)(ranked[b], ranked[a]);
    }
  }

  /** The entries of one row with a tax ID: one per name under that tax ID
      that scores below the threshold. */
  function WithIdRow(t: seq<Cert>, row: Cert, id: string, score: Scorer, threshold: int): (r: seq<RefEntry>)
  {
    if !HasName(row) then []
    else
      var n := row.name.value;
      var below := Inconsistent(t, n, id, score, threshold);
      seq(|below|, k requires 0 <= k < |below| =>
        RefEntry(row.report, DistinctNamesMessage(n, below[k]), RefUrl(t, [below[k]], id)))
  }

  /** A row with a tax ID and no name yields nothing; one with a name
      yields one entry per distinct name under its tax ID scoring below the
      threshold, each naming both names. */
  lemma WithIdRowEntries(t: seq<Cert>, row: Cert, id: string, score: Scorer, threshold: int)
    ensures !HasName(row) ==> WithIdRow(t, row, id, score, threshold) == []
    ensures HasName(row) ==>
      var r, below := WithIdRow(t, row, id, score, threshold), Inconsistent(t, row.name.value, id, score, threshold);
      |r| == |below|
      && forall k :: 0 <= k < |r| ==>
           r[k].url == row.report && r[k].message == DistinctNamesMessage(row.name.value, below[k])
           && r[k].refUrl == RefUrl(t, [below[k]], id)
  {
  }

  // ---------------------------------------------------------------------
  // Rows that arrive without a tax ID (lines 500-552)
  // ---------------------------------------------------------------------

  /** Names whose score against `name` reaches the threshold (line 533). */
  function Similar(name: string, general: seq<string>, score: Scorer, threshold: int): (r: seq<string>)
    ensures forall x :: x in r <==> x in general && score(name, x) >= threshold
  {
    Filter(general, (x: string) => score(name, x) >= threshold)
  }

  /** Where the candidates come from: the row's own name when some row with
      that very name has a tax ID, else the similar names. */
  function CandidateNames(cur: seq<Cert>, name: string, general: seq<string>, score: Scorer, threshold: int): seq<string> {
    if IdsNamed(cur, [name]) != [] then [name] else Similar(name, general, score, threshold)
  }

  /** The distinct tax IDs that may belong to the row. */
  function Candidates(cur: seq<Cert>, name: string, general: seq<string>, score: Scorer, threshold: int): (r: seq<string>)
    ensures NoDuplicates(r)
    ensures forall x :: x in r ==> x in IdsOf(cur)
  {
    var r := IdsNamed(cur, CandidateNames(cur, name, general, score, threshold));
    assert forall x :: x in r ==> x in IdsOf(cur) by {
      forall x | x in r ensures x in IdsOf(cur) {
        var j :| 0 <= j < |cur| && NamedIn(cur[j], CandidateNames(cur, name, general, score, threshold)) && cur[j].taxId == Some(x);
      }
    }
    r
  }

  /** What the loop body does with one row without a tax ID: the tax ID to
      write into it, if any, and its entries. The two lookups of the code
      (same name, then similar names) are folded into Candidates; an entry
      for a single candidate carries a reference url only when it was found
      under the same name, as in the code. */
  function NoIdRow(cur: seq<Cert>, row: Cert, general: seq<string>, score: Scorer, threshold: int)
    : (r: (Option<string>, seq<RefEntry>))
    ensures !HasName(row) ==> r == (None, [RefEntry(row.report, NoIdNoNameMessage, Some(""))])
    ensures HasName(row) ==>
      var n := row.name.value;
      var exact := IdsNamed(cur, [n]) != [];
      var ids := Candidates(cur, n, general, score, threshold);
      (r.0.Some? <==> |ids| == 1)
      && (|ids| == 1 ==>
            r == (Some(ids[0]), [RefEntry(row.report, UpdatedMessage(ids[0]), if exact then RefUrl(cur, [n], ids[0]) else Some(""))]))
      && (|ids| == 0 ==> r == (None, [RefEntry(row.report, UnidentifiableMessage(n), Some(""))]))
      && (|ids| > 1 ==> (|r.1| == |ids|
            && forall k :: 0 <= k < |ids| ==>
                 r.1[k] == RefEntry(row.report, AmbiguousMessage(n, ids[k], exact),
                                    RefUrl(cur, if exact then [n] else Similar(n, general, score, threshold), ids[k]))))
  {
    if !HasName(row) then (None, [RefEntry(row.report, NoIdNoNameMessage, Some(""))])
    else
      var n := row.name.value;
      var exact := IdsNamed(cur, [n]) != [];
      var names := CandidateNames(cur, n, general, score, threshold);
      var ids := Candidates(cur, n, general, score, threshold);
      if |ids| == 0 then (None, [RefEntry(row.report, UnidentifiableMessage(n), Some(""))])
      else if |ids| == 1 then
        (Some(ids[0]), [RefEntry(row.report, UpdatedMessage(ids[0]), if exact then RefUrl(cur, names, ids[0]) else Some(""))])
      else
        (None, seq(|ids|, k requires 0 <= k < |ids| =>
                   RefEntry(row.report, AmbiguousMessage(n, ids[k], exact), RefUrl(cur, names, ids[k]))))
  }

  /** The candidates found under the row's very name come first: only when
      no row with that name has a tax ID are similar names consulted. */
  lemma SameNameFirst(cur: seq<Cert>, name: string, general: seq<string>, score: Scorer, threshold: int)
    ensures var same := IdsNamed(cur, [name]);
      Candidates(cur, name, general, score, threshold)
        == if same != [] then same else IdsNamed(cur, Similar(name, general, score, threshold))
  {
  }

  // ---------------------------------------------------------------------
  // The two loops, for any row rule
  // ---------------------------------------------------------------------

  /** What the first loop does with a row that has a tax ID. */
  type WithIdRule = (seq<Cert>, Cert, string) -> seq<RefEntry>

  /** What the second loop does with a row without one: the tax ID to
      write, if any, and the entries. */
  type NoIdRule = (seq<Cert>, Cert) -> (Option<string>, seq<RefEntry>)

  function WithIdRuleAt(score: Scorer, threshold: int): WithIdRule {
    (t: seq<Cert>, row: Cert, id: string) => WithIdRow(t, row, id, score, threshold)
  }

  function NoIdRuleAt(general: seq<string>, score: Scorer, threshold: int): NoIdRule {
    (cur: seq<Cert>, row: Cert) => NoIdRow(cur, row, general, score, threshold)
  }

  /** The loop of lines 477-491 from row k on: the rows with a tax ID, in
      order. */
  function WithIdPass(t: seq<Cert>, k: nat, rule: WithIdRule): seq<RefEntry>
    requires k <= |t|
    decreases |t| - k
  {
    if k == |t| then []
    else (if t[k].taxId.Some? then rule(t, t[k], t[k].taxId.value) else []) + WithIdPass(t, k + 1, rule)
  }

  /** The loop of lines 500-552 from row k on, over the rows of the snapshot
      without a tax ID: each looks at the table as earlier rows left it, and
      may write its own tax ID cell. */
  function NoIdPass(t: seq<Cert>, snap: seq<Cert>, k: nat, rule: NoIdRule): (r: (seq<Cert>, seq<RefEntry>))
    requires |t| == |snap| && k <= |snap|
    ensures |r.0| == |t|
    decreases |snap| - k
  {
    if k == |snap| then (t, [])
    else if snap[k].taxId.Some? then NoIdPass(t, snap, k + 1, rule)
    else
      var (fill, found) := rule(t, snap[k]);
      var next := if fill.Some? then t[k := t[k].(taxId := fill)] else t;
      var (final, rest) := NoIdPass(next, snap, k + 1, rule);
      (final, found + rest)
  }

  /** What validar_cnpj_razao returns: the table after the in-place writes
      and the report. */
  function Reconciled(t: seq<Cert>, score: Scorer, threshold: int): (r: (seq<Cert>, seq<RefEntry>))
    ensures |r.0| == |t|
  {
    var named := WithIdPass(t, 0, WithIdRuleAt(score, threshold));
    var (final, filled) := NoIdPass(t, t, 0, NoIdRuleAt(Distinct(AllNames(t)), score, threshold));
    (final, named + filled)
  }

  /** validar_cnpj_razao (lines 450-561), the save to disk left out; the
      table passed in is the one returned. */
  method ValidateTaxIdName(df: array<Cert>, score: Scorer, threshold: int)
    returns (table: array<Cert>, entries: seq<RefEntry>)
    modifies df
    ensures table == df
    ensures (df[..], entries) == Reconciled(old(df[..]), score, threshold)
  {
    var snap := df[..];
    var named := CheckNamed(snap, WithIdRuleAt(score, threshold));
    var general := Distinct(AllNames(snap));
    var filled := FillMissing(df, snap, NoIdRuleAt(general, score, threshold));
    entries := named + filled;
    table := df;
  }

  /** The loop of lines 477-491. */
  method CheckNamed(snap: seq<Cert>, rule: WithIdRule) returns (found: seq<RefEntry>)
    ensures found == WithIdPass(snap, 0, rule)
  {
    found := [];
    var k := 0;
    while k < |snap|
      invariant 0 <= k <= |snap|
      invariant WithIdPass(snap, 0, rule) == found + WithIdPass(snap, k, rule)
    {
      if snap[k].taxId.Some? {
        var es := rule(snap, snap[k], snap[k].taxId.value);
        assert found + WithIdPass(snap, k, rule) == (found + es) + WithIdPass(snap, k + 1, rule);
        found := found + es;
      }
      k := k + 1;
    }
    assert found + [] == found;
  }

  /** The loop of lines 500-552, writing into df as it goes (lines 521 and
      546). */
  method FillMissing(df: array<Cert>, snap: seq<Cert>, rule: NoIdRule) returns (found: seq<RefEntry>)
    requires df.Length == |snap|
    modifies df
    ensures (df[..], found) == NoIdPass(old(df[..]), snap, 0, rule)
  {
    found := [];
    var k := 0;
    assert [] + NoIdPass(df[..], snap, 0, rule).1 == NoIdPass(df[..], snap, 0, rule).1;
    while k < df.Length
      invariant 0 <= k <= df.Length
      invariant NoIdPass(old(df[..]), snap, 0, rule)
                == (NoIdPass(df[..], snap, k, rule).0, found + NoIdPass(df[..], snap, k, rule).1)
    {
      if snap[k].taxId.None? {
        var before := df[..];
        var (fill, es) := rule(before, snap[k]);
        var rest := NoIdPass(if fill.Some? then before[k := before[k].(taxId := fill)] else before, snap, k + 1, rule);
        assert found + (es + rest.1) == (found + es) + rest.1;
        if fill.Some? {
          df[k] := df[k].(taxId := fill);
        }
        assert df[..] == if fill.Some? then before[k := before[k].(taxId := fill)] else before;
        found := found + es;
      }
      k := k + 1;
    }
    assert found + [] == found;
  }

  // ---------------------------------------------------------------------
  // What the passes change
  // ---------------------------------------------------------------------

  /** The second loop changes only tax ID cells, only of rows that had
      none in the snapshot, and only by filling them. */
  lemma {:induction false} NoIdPassFrame(t: seq<Cert>, snap: seq<Cert>, k: nat, rule: NoIdRule)
    requires |t| == |snap| && k <= |snap|
    ensures var r := NoIdPass(t, snap, k, rule).0;
      |r| == |t|
      && forall j :: 0 <= j < |t| ==>
           r[j].name == t[j].name && r[j].report == t[j].report && r[j].url == t[j].url
           && ((j < k || snap[j].taxId.Some?) ==> r[j] == t[j])
           && (r[j] != t[j] ==> r[j].taxId.Some?)
    decreases |snap| - k
  {
    if k < |snap| {
      if snap[k].taxId.Some? {
        NoIdPassFrame(t, snap, k + 1, rule);
      } else {
        var (fill, found) := rule(t, snap[k]);
        var next := if fill.Some? then t[k := t[k].(taxId := fill)] else t;
        NoIdPassFrame(next, snap, k + 1, rule);
      }
    }
  }

  /** A rule that writes only tax IDs already present in the table it
      looks at. */
  ghost predicate FillsFromTable(rule: NoIdRule) {
    forall cur, row :: rule(cur, row).0.Some? ==> rule(cur, row).0.value in IdsOf(cur)
  }

  lemma FillKeepsIds(t: seq<Cert>, k: nat, id: string)
    requires k < |t| && id in IdsOf(t)
    ensures IdsOf(t[k := t[k].(taxId := Some(id))]) <= IdsOf(t)
  {
    var u := t[k := t[k].(taxId := Some(id))];
    forall x | x in IdsOf(u) ensures x in IdsOf(t) {
      var j :| 0 <= j < |u| && u[j].taxId.Some? && u[j].taxId.value == x;
      if j != k {
        assert t[j].taxId == u[j].taxId;
      }
    }
  }

  /** No tax ID is invented: every tax ID after the second loop was in the
      table before it. */
  lemma {:induction false} NoIdPassIds(t: seq<Cert>, snap: seq<Cert>, k: nat, rule: NoIdRule)
    requires |t| == |snap| && k <= |snap| && FillsFromTable(rule)
    ensures IdsOf(NoIdPass(t, snap, k, rule).0) <= IdsOf(t)
    decreases |snap| - k
  {
    if k < |snap| {
      if snap[k].taxId.Some? {
        NoIdPassIds(t, snap, k + 1, rule);
      } else {
        var (fill, found) := rule(t, snap[k]);
        var next := if fill.Some? then t[k := t[k].(taxId := fill)] else t;
        NoIdPassIds(next, snap, k + 1, rule);
        if fill.Some? {
          FillKeepsIds(t, k, fill.value);
        }
      }
    }
  }

  /** A row for which the rule never writes keeps its tax ID cell. */
  lemma {:induction false} NoIdPassUnfilled(t: seq<Cert>, snap: seq<Cert>, k: nat, rule: NoIdRule, j: nat)
    requires |t| == |snap| && k <= |snap| && j < |snap|
    requires forall cur :: rule(cur, snap[j]).0.None?
    ensures NoIdPass(t, snap, k, rule).0[j] == t[j]
    decreases |snap| - k
  {
    NoIdPassFrame(t, snap, k, rule);
    if k < |snap| {
      if snap[k].taxId.Some? {
        NoIdPassUnfilled(t, snap, k + 1, rule, j);
      } else {
        var (fill, found) := rule(t, snap[k]);
        var next := if fill.Some? then t[k := t[k].(taxId := fill)] else t;
        NoIdPassUnfilled(next, snap, k + 1, rule, j);
        NoIdPassFrame(next, snap, k + 1, rule);
      }
    }
  }

  lemma NoIdRuleFills(general: seq<string>, score: Scorer, threshold: int)
    ensures FillsFromTable(NoIdRuleAt(general, score, threshold))
  {
    var rule := NoIdRuleAt(general, score, threshold);
    forall cur, row | rule(cur, row).0.Some? ensures rule(cur, row).0.value in IdsOf(cur) {
      var r := NoIdRow(cur, row, general, score, threshold);
      assert rule(cur, row) == r;
      var ids := Candidates(cur, row.name.value, general, score, threshold);
      assert r.0.value == ids[0] && ids[0] in ids;
    }
  }

  /** Rows that arrive with a tax ID are never changed; a row without one
      changes at most in its tax ID cell, which it then holds; and every
      tax ID in the table afterwards was already in it. */
  lemma ReconcileChanges(t: seq<Cert>, score: Scorer, threshold: int)
    ensures var r := Reconciled(t, score, threshold).0;
      |r| == |t|
      && (forall j :: 0 <= j < |t| && t[j].taxId.Some? ==> r[j] == t[j])
      && (forall j :: 0 <= j < |t| ==> r[j].name == t[j].name && r[j].report == t[j].report && r[j].url == t[j].url)
      && (forall j :: 0 <= j < |t| && r[j] != t[j] ==> t[j].taxId.None? && r[j].taxId.Some?)
      && IdsOf(r) <= IdsOf(t)
  {
    var rule := NoIdRuleAt(Distinct(AllNames(t)), score, threshold);
    assert Reconciled(t, score, threshold).0 == NoIdPass(t, t, 0, rule).0;
    NoIdPassFrame(t, t, 0, rule);
    NoIdRuleFills(Distinct(AllNames(t)), score, threshold);
    NoIdPassIds(t, t, 0, rule);
  }

  /** A row with neither tax ID nor name keeps its empty tax ID cell. */
  lemma NamelessStaysUnidentified(t: seq<Cert>, score: Scorer, threshold: int, j: nat)
    requires j < |t| && t[j].taxId.None? && !HasName(t[j])
    ensures Reconciled(t, score, threshold).0[j] == t[j]
  {
    var rule := NoIdRuleAt(Distinct(AllNames(t)), score, threshold);
    assert Reconciled(t, score, threshold).0 == NoIdPass(t, t, 0, rule).0;
    forall cur ensures rule(cur, t[j]).0.None? {
      assert rule(cur, t[j]) == NoIdRow(cur, t[j], Distinct(AllNames(t)), score, threshold);
    }
    NoIdPassUnfilled(t, t, 0, rule, j);
  }
}
