/** The one sorting routine the model needs: a stable insertion sort under
    any total preorder. It stands for the library sorts the source relies
    on (pandas' sort_values and groupby). */
module Sorting {

  ghost predicate TotalPreorder<T(!new)>(le: (T, T) -> bool) {
    (forall a, b :: le(a, b) || le(b, a))
    && (forall a, b, c :: le(a, b) && le(b, c) ==> le(a, c))
  }

  predicate SortedBy<T>(s: seq<T>, le: (T, T) -> bool) {
    forall i, j :: 0 <= i < j < |s| ==> le(s[i], s[j])
  }

  /** Puts x in front of the first element it is `le` to. */
  function Insert<T>(x: T, s: seq<T>, le: (T, T) -> bool): (r: seq<T>)
    ensures multiset(r) == multiset(s) + multiset{x}
  {
    if s == [] then [x]
    else if le(x, s[0]) then [x] + s
    else
      assert s == [s[0]] + s[1..];
      [s[0]] + Insert(x, s[1..], le)
  }

  /** Stable: of two elements that are `le` each other, the earlier in s
      stays earlier. */
  function SortBy<T>(s: seq<T>, le: (T, T) -> bool): (r: seq<T>)
    ensures multiset(r) == multiset(s) && |r| == |s|
  {
    if s == [] then []
    else
      assert s == [s[0]] + s[1..];
      Insert(s[0], SortBy(s[1..], le), le)
  }

  lemma {:induction false} InsertSorted<T(!new)>(x: T, s: seq<T>, le: (T, T) -> bool)
    requires TotalPreorder(le) && SortedBy(s, le)
    ensures SortedBy(Insert(x, s, le), le)
  {
    if s != [] && !le(x, s[0]) {
      InsertSorted(x, s[1..], le);
      var r := Insert(x, s, le);
      var t := Insert(x, s[1..], le);
      assert r == [s[0]] + t;
      forall j | 0 < j < |r| ensures le(r[0], r[j]) {
        assert r[j] in multiset(t);
        assert r[j] == x || r[j] in multiset(s[1..]);
        if r[j] != x {
          var k :| 0 <= k < |s[1..]| && s[1..][k] == r[j];
        }
      }
    }
  }

  /** SortBy yields an ordered permutation. */
  lemma {:induction false} SortBySorted<T(!new)>(s: seq<T>, le: (T, T) -> bool)
    requires TotalPreorder(le)
    ensures SortedBy(SortBy(s, le), le)
  {
    if s != [] {
      SortBySorted(s[1..], le);
      InsertSorted(s[0], SortBy(s[1..], le), le);
    }
  }

  /** x comes before y in s: some occurrence of x precedes some occurrence
      of y. */
  predicate Precedes<T(==)>(s: seq<T>, x: T, y: T) {
    exists i, j :: 0 <= i < j < |s| && s[i] == x && s[j] == y
  }

  /** Insert puts x after the elements it is not `le` to, and before the
      rest, which keep their order. */
  lemma {:induction false} InsertAt<T>(x: T, s: seq<T>, le: (T, T) -> bool) returns (p: nat)
    ensures p <= |s| && Insert(x, s, le) == s[..p] + [x] + s[p..]
    ensures forall k :: 0 <= k < p ==> !le(x, s[k])
  {
    if s == [] || le(x, s[0]) {
      p := 0;
    } else {
      var q := InsertAt(x, s[1..], le);
      p := q + 1;
      assert s[..p] == [s[0]] + s[1..][..q];
      assert s[p..] == s[1..][q..];
      forall k | 0 <= k < p ensures !le(x, s[k]) {
        if k > 0 {
          assert s[k] == s[1..][k - 1];
        }
      }
    }
  }

  /** Ties of r (a later element `le` an earlier one) come in the order
      they have in s. */
  predicate StableFrom<T(==)>(r: seq<T>, s: seq<T>, le: (T, T) -> bool) {
    forall a, b :: 0 <= a < b < |r| && le(r[b], r[a]) ==> Precedes(s, r[a], r[b])
  }

  /** SortBy is stable: when a later element of the result is `le` an
      earlier one (a tie under a total preorder), the two come in the order
      they had in s. */
  lemma {:induction false} SortByStable<T>(s: seq<T>, le: (T, T) -> bool)
    ensures StableFrom(SortBy(s, le), s, le)
  {
    if s != [] {
      var t := SortBy(s[1..], le);
      SortByStable(s[1..], le);
      var p := InsertAt(s[0], t, le);
      var r := SortBy(s, le);
      assert r == t[..p] + [s[0]] + t[p..];
      forall a, b | 0 <= a < b < |r| && le(r[b], r[a]) ensures Precedes(s, r[a], r[b]) {
        InsertedPair(s, t, p, r, le, a, b);
      }
    }
  }

  /** One pair of the result of inserting s[0] at p into the sorted tail t. */
  lemma InsertedPair<T>(s: seq<T>, t: seq<T>, p: nat, r: seq<T>, le: (T, T) -> bool, a: nat, b: nat)
    requires s != [] && multiset(t) == multiset(s[1..])
    requires p <= |t| && r == t[..p] + [s[0]] + t[p..]
    requires forall k :: 0 <= k < p ==> !le(s[0], t[k])
    requires StableFrom(t, s[1..], le)
    requires a < b < |r| && le(r[b], r[a])
    ensures Precedes(s, r[a], r[b])
  {
    var rest := s[1..];
    if a == p {
      assert r[b] == t[b - 1] && t[b - 1] in multiset(rest);
      var c :| 0 <= c < |rest| && rest[c] == r[b];
      assert s[0] == r[a] && s[c + 1] == r[b];
    } else if b == p {
      assert false;
    } else {
      var a', b' := if a < p then a else a - 1, if b < p then b else b - 1;
      assert r[a] == t[a'] && r[b] == t[b'] && a' < b';
      var i, j :| 0 <= i < j < |rest| && rest[i] == r[a] && rest[j] == r[b];
      assert s[i + 1] == r[a] && s[j + 1] == r[b];
    }
  }

  lemma FirstIsLeast<T>(s: seq<T>, x: T, le: (T, T) -> bool)
    requires SortedBy(s, le) && x in multiset(s)
    requires forall y :: le(y, y)
    ensures le(s[0], x)
  {
    var i :| 0 <= i < |s| && s[i] == x;
    if i > 0 {
      assert le(s[0], s[i]);
    }
  }

  /** Under an order that is also antisymmetric there is only one ordered
      permutation of a sequence: ties cannot change the result. */
  lemma {:induction false} SortedUnique<T(!new)>(a: seq<T>, b: seq<T>, le: (T, T) -> bool)
    requires TotalPreorder(le)
    requires forall x, y :: le(x, y) && le(y, x) ==> x == y
    requires SortedBy(a, le) && SortedBy(b, le) && multiset(a) == multiset(b)
    ensures a == b
  {
    if a == [] {
      assert |multiset(b)| == 0;
    } else {
      assert |b| == |a| by { assert |multiset(a)| == |multiset(b)|; }
      assert forall y :: le(y, y) by {
        forall y ensures le(y, y) { assert le(y, y) || le(y, y); }
      }
      FirstIsLeast(b, a[0], le);
      FirstIsLeast(a, b[0], le);
      assert a[0] == b[0];
      TailMultiset(a, b);
      SortedTail(a, le);
      SortedTail(b, le);
      SortedUnique(a[1..], b[1..], le);
    }
  }

  /** Equal multisets with equal first elements have equal tails. */
  lemma TailMultiset<T>(a: seq<T>, b: seq<T>)
    requires a != [] && b != [] && a[0] == b[0] && multiset(a) == multiset(b)
    ensures multiset(a[1..]) == multiset(b[1..])
  {
    assert a == [a[0]] + a[1..] && b == [b[0]] + b[1..];
    assert multiset(a) == multiset{a[0]} + multiset(a[1..]);
    assert multiset(b) == multiset{b[0]} + multiset(b[1..]);
    forall y ensures multiset(a[1..])[y] == multiset(b[1..])[y] {
      assert multiset(a)[y] == multiset(b)[y];
    }
  }

  lemma SortedTail<T>(a: seq<T>, le: (T, T) -> bool)
    requires a != [] && SortedBy(a, le)
    ensures SortedBy(a[1..], le)
  {
    forall i, j | 0 <= i < j < |a[1..]| ensures le(a[1..][i], a[1..][j]) {
      assert a[1..][i] == a[i + 1] && a[1..][j] == a[j + 1];
    }
  }
}
