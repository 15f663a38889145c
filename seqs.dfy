/** Sequence helpers shared by the checks: pandas' unique() and boolean
    filtering, both keeping row order. */
module Seqs {
  import opened Sorting

  predicate NoDuplicates<T(==)>(s: seq<T>) {
    forall i, j :: 0 <= i < j < |s| ==> s[i] != s[j]
  }

  /** x occurs in s for the first time at position k. */
  predicate FirstAt<T(==)>(s: seq<T>, x: T, k: int) {
    0 <= k < |s| && s[k] == x && x !in s[..k]
  }

  /** The values of s in order of first appearance, each once: every value
      listed before another has already appeared in s where that other one
      first appears. */
  function Distinct<T(==,!new)>(s: seq<T>): (r: seq<T>)
    ensures forall x :: x in r <==> x in s
    ensures NoDuplicates(r)
    ensures forall i, j, k :: 0 <= i < j < |r| && FirstAt(s, r[j], k) ==> r[i] in s[..k]
  {
    if s == [] then []
    else
      var n := |s| - 1;
      var init := s[..n];
      var d := Distinct(init);
      var last := s[n];
      assert s == init + [last];
      DistinctStep(init, last, d);
      if last in d then d
      else
        assert forall i :: 0 <= i < |d| ==> d[i] in d;
        d + [last]
  }

  /** Appending one value keeps the order of the values already seen, and a
      value new in the last place comes after all of them. */
  lemma DistinctStep<T>(init: seq<T>, last: T, d: seq<T>)
    requires forall x :: x in d <==> x in init
    requires forall i, j, k :: 0 <= i < j < |d| && FirstAt(init, d[j], k) ==> d[i] in init[..k]
    ensures forall i, j, k :: 0 <= i < j < |d| && FirstAt(init + [last], d[j], k) ==> d[i] in (init + [last])[..k]
    ensures last !in d ==> forall i, k :: 0 <= i < |d| && FirstAt(init + [last], last, k) ==> d[i] in (init + [last])[..k]
  {
    var s := init + [last];
    var n := |init|;
    forall i, j, k | 0 <= i < j < |d| && FirstAt(s, d[j], k) ensures d[i] in s[..k] {
      assert d[j] in d;
      var w :| 0 <= w < n && init[w] == d[j];
      assert init[..k] == s[..k];
      assert FirstAt(init, d[j], k);
    }
    if last !in d {
      forall i, k | 0 <= i < |d| && FirstAt(s, last, k) ensures d[i] in s[..k] {
        assert s[..k] == init;
        assert d[i] in d;
      }
    }
  }

  /** r is s with some elements deleted, the rest kept in order. */
  predicate Subsequence<T(==)>(r: seq<T>, s: seq<T>)
    decreases |s|
  {
    if r == [] then true
    else if s == [] then false
    else (r[0] == s[0] && Subsequence(r[1..], s[1..])) || Subsequence(r, s[1..])
  }

  /** Elements of a subsequence come in the order they have in s. */
  lemma {:induction false} SubsequencePrecedes<T>(r: seq<T>, s: seq<T>)
    requires Subsequence(r, s)
    ensures forall i, j :: 0 <= i < j < |r| ==> Precedes(s, r[i], r[j])
    decreases |s|
  {
    if r != [] {
      if r[0] == s[0] && Subsequence(r[1..], s[1..]) {
        SubsequencePrecedes(r[1..], s[1..]);
        forall i, j | 0 <= i < j < |r| ensures Precedes(s, r[i], r[j]) {
          SubsequenceMember(r[1..], s[1..], j - 1);
          var c :| 0 <= c < |s[1..]| && s[1..][c] == r[j];
          if i == 0 {
            assert s[0] == r[i] && s[c + 1] == r[j];
          } else {
            assert r[i] == r[1..][i - 1] && r[j] == r[1..][j - 1];
            var a, b :| 0 <= a < b < |s[1..]| && s[1..][a] == r[i] && s[1..][b] == r[j];
            assert s[a + 1] == r[i] && s[b + 1] == r[j];
          }
        }
      } else {
        SubsequencePrecedes(r, s[1..]);
        forall i, j | 0 <= i < j < |r| ensures Precedes(s, r[i], r[j]) {
          var a, b :| 0 <= a < b < |s[1..]| && s[1..][a] == r[i] && s[1..][b] == r[j];
          assert s[a + 1] == r[i] && s[b + 1] == r[j];
        }
      }
    }
  }

  /** Every element of a subsequence is an element of s. */
  lemma {:induction false} SubsequenceMember<T>(r: seq<T>, s: seq<T>, i: nat)
    requires Subsequence(r, s) && i < |r|
    ensures r[i] in s
    decreases |s|
  {
    if r[0] == s[0] && Subsequence(r[1..], s[1..]) {
      if i > 0 {
        SubsequenceMember(r[1..], s[1..], i - 1);
        assert r[i] == r[1..][i - 1];
      }
    } else {
      SubsequenceMember(r, s[1..], i);
    }
  }

  /** The elements of s that pass `keep`, in order. */
  function Filter<T(==,!new)>(s: seq<T>, keep: T -> bool): (r: seq<T>)
    ensures forall x :: x in r <==> x in s && keep(x)
    ensures |r| <= |s|
    ensures Subsequence(r, s)
    ensures forall x :: multiset(r)[x] == if keep(x) then multiset(s)[x] else 0
  {
    if s == [] then []
    else
      assert forall x :: x in s <==> x == s[0] || x in s[1..];
      var rest := Filter(s[1..], keep);
      assert s == [s[0]] + s[1..];
      assert multiset(s) == multiset{s[0]} + multiset(s[1..]);
      if keep(s[0]) then
        assert ([s[0]] + rest)[1..] == rest;
        [s[0]] + rest
      else
        assert Subsequence(rest, s) by {
          if rest != [] {
            assert Subsequence(rest, s[1..]);
          }
        }
        rest
  }

  /** Filtering keeps distinct values distinct. */
  lemma {:induction false} FilterNoDuplicates<T(!new)>(s: seq<T>, keep: T -> bool)
    requires NoDuplicates(s)
    ensures NoDuplicates(Filter(s, keep))
  {
    if s != [] {
      TailNoDuplicates(s);
      FilterNoDuplicates(s[1..], keep);
      var rest := Filter(s[1..], keep);
      if keep(s[0]) {
        ConsNoDuplicates(s[0], rest);
      } else {
        assert Filter(s, keep) == [] + rest;
      }
    }
  }

  lemma TailNoDuplicates<T>(s: seq<T>)
    requires s != [] && NoDuplicates(s)
    ensures NoDuplicates(s[1..]) && s[0] !in s[1..]
  {
    forall i, j | 0 <= i < j < |s[1..]| ensures s[1..][i] != s[1..][j] {
      assert s[1..][i] == s[i + 1] && s[1..][j] == s[j + 1];
    }
    forall k | 0 <= k < |s[1..]| ensures s[1..][k] != s[0] {
      assert s[1..][k] == s[k + 1];
    }
  }

  lemma ConsNoDuplicates<T>(x: T, rest: seq<T>)
    requires NoDuplicates(rest) && x !in rest
    ensures NoDuplicates([x] + rest)
  {
    var r := [x] + rest;
    forall i, j | 0 <= i < j < |r| ensures r[i] != r[j] {
      assert r[j] == rest[j - 1];
      if i > 0 {
        assert r[i] == rest[i - 1];
      }
    }
  }

  /** A permutation of a sequence without repeats has none either. */
  lemma PermutationNoDuplicates<T>(s: seq<T>, r: seq<T>)
    requires NoDuplicates(s) && multiset(r) == multiset(s)
    ensures NoDuplicates(r)
  {
    forall i, j | 0 <= i < j < |r| ensures r[i] != r[j] {
      if r[i] == r[j] {
        var x := r[i];
        assert multiset(r)[x] >= 2 by {
          assert r == r[..j] + r[j..];
          assert x in r[..j];
          assert x in r[j..];
          assert multiset(r) == multiset(r[..j]) + multiset(r[j..]);
        }
        MultiplicityOne(s, x);
      }
    }
  }

  lemma {:induction false} MultiplicityOne<T>(s: seq<T>, x: T)
    requires NoDuplicates(s)
    ensures multiset(s)[x] <= 1
  {
    if s != [] {
      TailNoDuplicates(s);
      MultiplicityOne(s[1..], x);
      assert s == [s[0]] + s[1..];
      assert multiset(s) == multiset{s[0]} + multiset(s[1..]);
    }
  }

  /** Filtering keeps an ordered sequence ordered. */
  lemma FilterSorted<T(!new)>(s: seq<T>, keep: T -> bool, le: (T, T) -> bool)
    requires SortedBy(s, le)
    ensures SortedBy(Filter(s, keep), le)
  {
    var r := Filter(s, keep);
    SubsequencePrecedes(r, s);
    forall i, j | 0 <= i < j < |r| ensures le(r[i], r[j]) {
      assert Precedes(s, r[i], r[j]);
    }
  }
}
