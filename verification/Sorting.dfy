/** Go's string order and the contract of sort.Slice. */
module Sorting {
  // Lexicographic, character by character.
  predicate StringLess(a: string, b: string) {
    b != "" && (a == "" || a[0] < b[0] || (a[0] == b[0] && StringLess(a[1..], b[1..])))
  }

  // At position n the strings part ways.
  predicate PartsAt(a: string, b: string, n: int) {
    0 <= n <= |a| && n < |b| && a[..n] == b[..n] && (n == |a| || a[n] < b[n])
  }

  // The lexicographic order.
  lemma {:induction false} StringLessExactly(a: string, b: string)
    ensures StringLess(a, b) <==> exists n :: PartsAt(a, b, n)
  {
    if a == "" {
      assert b != "" ==> PartsAt(a, b, 0);
    } else if b != "" {
      if a[0] != b[0] {
        assert a[0] < b[0] ==> PartsAt(a, b, 0);
        assert forall n :: 0 < n <= |a| && n < |b| ==> a[..n][0] != b[..n][0];
      } else {
        StringLessExactly(a[1..], b[1..]);
        PartsAlike(a, b);
      }
    }
  }

  lemma PartsAlike(a: string, b: string)
    requires a != "" && b != "" && a[0] == b[0]
    ensures (exists n :: PartsAt(a, b, n)) <==> (exists n :: PartsAt(a[1..], b[1..], n))
  {
    if n :| PartsAt(a, b, n) {
      assert a[1..][..n - 1] == a[..n][1..] == b[..n][1..] == b[1..][..n - 1];
      assert PartsAt(a[1..], b[1..], n - 1);
    }
    if n :| PartsAt(a[1..], b[1..], n) {
      assert a[..n + 1] == [a[0]] + a[1..][..n] == [b[0]] + b[1..][..n] == b[..n + 1];
      assert PartsAt(a, b, n + 1);
    }
  }

  lemma {:induction false} StringLessTotal(a: string, b: string)
    ensures StringLess(a, b) || a == b || StringLess(b, a)
    ensures !(StringLess(a, b) && (a == b || StringLess(b, a)))
  {
    if a != "" && b != "" {
      StringLessTotal(a[1..], b[1..]);
      assert a == [a[0]] + a[1..] && b == [b[0]] + b[1..];
    }
  }

  lemma {:induction false} StringLessTransitive(a: string, b: string, c: string)
    requires StringLess(a, b) && StringLess(b, c)
    ensures StringLess(a, c)
  {
    if a != "" && a[0] == b[0] == c[0] {
      StringLessTransitive(a[1..], b[1..], c[1..]);
    }
  }

  // What sort.Slice asks of its comparison.
  ghost predicate StrictWeakOrder<T(!new)>(less: (T, T) -> bool) {
    && (forall x :: !less(x, x))
    && (forall x, y, z :: less(x, y) && less(y, z) ==> less(x, z))
    && (forall x, y, z :: !less(y, x) && !less(z, y) ==> !less(z, x))
  }

  ghost predicate SortedBy<T(!new)>(less: (T, T) -> bool, s: seq<T>) {
    forall i, j :: 0 <= i < j < |s| ==> !less(s[j], s[i])
  }

  ghost predicate SortOf<T(!new)>(less: (T, T) -> bool, s: seq<T>, sorted: seq<T>) {
    multiset(sorted) == multiset(s) && SortedBy(less, sorted)
  }

  // Some sorted arrangement; ties fall as they may, and nothing may rely on how.
  method SortSlice<T(!new)>(less: (T, T) -> bool, s: seq<T>) returns (sorted: seq<T>)
    requires StrictWeakOrder(less)
    ensures SortOf(less, s, sorted)
  {
    sorted := [];
    var i := 0;
    while i < |s|
      invariant 0 <= i <= |s|
      invariant SortOf(less, s[..i], sorted)
    {
      var k := 0;
      while k < |sorted| && !less(s[i], sorted[k])
        invariant 0 <= k <= |sorted|
        invariant forall m :: 0 <= m < k ==> !less(s[i], sorted[m])
      {
        k := k + 1;
      }
      InsertSorts(less, s[..i], sorted, k, s[i]);
      assert s[..i + 1] == s[..i] + [s[i]];
      sorted := sorted[..k] + [s[i]] + sorted[k..];
      i := i + 1;
    }
    assert s[..|s|] == s;
  }

  lemma InsertSorts<T(!new)>(less: (T, T) -> bool, s: seq<T>, sorted: seq<T>, k: nat, x: T)
    requires StrictWeakOrder(less) && SortOf(less, s, sorted) && k <= |sorted|
    requires forall m :: 0 <= m < k ==> !less(x, sorted[m])
    requires k < |sorted| ==> less(x, sorted[k])
    ensures SortOf(less, s + [x], sorted[..k] + [x] + sorted[k..])
  {
    InsertKeepsSorted(less, sorted, k, x);
    assert sorted == sorted[..k] + sorted[k..];
  }

  lemma InsertKeepsSorted<T(!new)>(less: (T, T) -> bool, s: seq<T>, k: nat, x: T)
    requires StrictWeakOrder(less) && SortedBy(less, s) && k <= |s|
    requires forall m :: 0 <= m < k ==> !less(x, s[m])
    requires k < |s| ==> less(x, s[k])
    ensures SortedBy(less, s[..k] + [x] + s[k..])
  {
    var t := s[..k] + [x] + s[k..];
    forall i, j | 0 <= i < j < |t| ensures !less(t[j], t[i]) {
      if i == k {
        var y := s[j - 1];
        assert t[i] == x && t[j] == y;
        assert j - 1 == k || !less(y, s[k]);
        assert less(x, s[k]);
      }
    }
  }

  lemma {:induction false} SortExists<T(!new)>(less: (T, T) -> bool, s: seq<T>) returns (sorted: seq<T>)
    requires StrictWeakOrder(less)
    ensures SortOf(less, s, sorted)
  {
    if s == [] {
      sorted := [];
    } else {
      var init, x := s[..|s| - 1], s[|s| - 1];
      var before := SortExists(less, init);
      var k := 0;
      while k < |before| && !less(x, before[k])
        invariant 0 <= k <= |before|
        invariant forall m :: 0 <= m < k ==> !less(x, before[m])
      {
        k := k + 1;
      }
      InsertKeepsSorted(less, before, k, x);
      sorted := before[..k] + [x] + before[k..];
      assert s == init + [x] && before == before[..k] + before[k..];
    }
  }

  ghost predicate Antisymmetric<T(!new)>(less: (T, T) -> bool) {
    forall x, y :: !less(x, y) && !less(y, x) ==> x == y
  }

  // With a total order the sorted arrangement is one sequence, however it is reached.
  lemma {:induction false} SortUnique<T(!new)>(less: (T, T) -> bool, a: seq<T>, b: seq<T>)
    requires Antisymmetric(less) && SortedBy(less, a) && SortedBy(less, b) && multiset(a) == multiset(b)
    ensures a == b
  {
    SameLength(a, b);
    if a != [] {
      Unheaded(a);
      Unheaded(b);
      assert a[0] in multiset(a) && b[0] in multiset(b);
      HeadIsLeast(less, a, b[0]);
      HeadIsLeast(less, b, a[0]);
      TailSorted(less, a);
      TailSorted(less, b);
      SortUnique(less, a[1..], b[1..]);
    }
  }

  lemma Unheaded<T>(s: seq<T>)
    requires s != []
    ensures s == [s[0]] + s[1..] && multiset(s[1..]) == multiset(s) - multiset{s[0]}
  {
    assert s == [s[0]] + s[1..];
  }

  lemma TailSorted<T(!new)>(less: (T, T) -> bool, s: seq<T>)
    requires s != [] && SortedBy(less, s)
    ensures SortedBy(less, s[1..])
  {
  }

  lemma SameLength<T>(a: seq<T>, b: seq<T>)
    requires multiset(a) == multiset(b)
    ensures |a| == |b|
  {
    assert |multiset(a)| == |a| && |multiset(b)| == |b|;
  }

  lemma SameMembers<T>(a: seq<T>, b: seq<T>)
    requires multiset(a) == multiset(b)
    ensures forall x :: x in a <==> x in b
  {
    forall x ensures x in a <==> x in b {
      assert x in a <==> x in multiset(a);
      assert x in b <==> x in multiset(b);
    }
  }

  lemma HeadIsLeast<T(!new)>(less: (T, T) -> bool, s: seq<T>, x: T)
    requires SortedBy(less, s) && s != [] && x in s
    ensures x == s[0] || !less(x, s[0])
  {
    var i :| 0 <= i < |s| && s[i] == x;
  }

  // ---------- Rearrangements under a map ----------

  function Map<T, U>(f: T -> U, s: seq<T>): (r: seq<U>)
    ensures |r| == |s| && forall i :: 0 <= i < |s| ==> r[i] == f(s[i])
  {
    seq(|s|, i requires 0 <= i < |s| => f(s[i]))
  }

  lemma WithoutOne<T>(s: seq<T>, i: nat)
    requires i < |s|
    ensures multiset(s[..i] + s[i + 1..]) == multiset(s) - multiset{s[i]}
  {
    assert s == s[..i] + [s[i]] + s[i + 1..];
  }

  lemma {:induction false} MapKeepsMultiset<T, U>(f: T -> U, a: seq<T>, b: seq<T>)
    requires multiset(a) == multiset(b)
    ensures multiset(Map(f, a)) == multiset(Map(f, b))
    decreases |a|
  {
    SameLength(a, b);
    if |a| == 0 {
      assert a == b;
    } else {
      assert a[0] in multiset(a);
      var i := Occurrence(a[0], b);
      var restA, restB := a[..0] + a[1..], b[..i] + b[i + 1..];
      assert multiset(restA) == multiset(restB) by {
        WithoutOne(a, 0);
        WithoutOne(b, i);
      }
      assert multiset(Map(f, a)) == multiset(Map(f, restA)) + multiset{f(a[0])} by { MapWithoutOne(f, a, 0); }
      assert multiset(Map(f, b)) == multiset(Map(f, restB)) + multiset{f(a[0])} by { MapWithoutOne(f, b, i); }
      MapKeepsMultiset(f, restA, restB);
    }
  }

  lemma Occurrence<T>(x: T, s: seq<T>) returns (i: nat)
    requires x in multiset(s)
    ensures i < |s| && s[i] == x
  {
    i :| 0 <= i < |s| && s[i] == x;
  }

  lemma MapWithoutOne<T, U>(f: T -> U, s: seq<T>, i: nat)
    requires i < |s|
    ensures multiset(Map(f, s)) == multiset(Map(f, s[..i] + s[i + 1..])) + multiset{f(s[i])}
  {
    var m := Map(f, s);
    WithoutOne(m, i);
    assert Map(f, s[..i] + s[i + 1..]) == m[..i] + m[i + 1..];
  }
}
