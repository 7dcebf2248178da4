// What Go's sort.Slice promises, for an order given by an integer key: a
// sorted permutation, with nothing said about ties.
module Sorting {
  ghost predicate SortedBy<T>(s: seq<T>, key: T -> int) {
    forall i, j :: 0 <= i < j < |s| ==> key(s[i]) <= key(s[j])
  }

  ghost predicate StrictlyBy<T>(s: seq<T>, key: T -> int) {
    forall i, j :: 0 <= i < j < |s| ==> key(s[i]) < key(s[j])
  }

  ghost predicate DistinctBy<T>(s: seq<T>, key: T -> int) {
    forall i, j :: 0 <= i < j < |s| ==> key(s[i]) != key(s[j])
  }

  ghost predicate Distinct<T>(s: seq<T>) {
    forall i, j :: 0 <= i < j < |s| ==> s[i] != s[j]
  }

  method SortBy<T>(s: seq<T>, key: T -> int) returns (r: seq<T>)
    ensures SortedBy(r, key)
    ensures multiset(r) == multiset(s)
  {
    r := [];
    for i := 0 to |s|
      invariant SortedBy(r, key)
      invariant multiset(r) == multiset(s[..i])
    {
      assert s[..i + 1] == s[..i] + [s[i]];
      r := InsertBy(r, s[i], key);
    }
    assert s[..|s|] == s;
  }

  method InsertBy<T>(s: seq<T>, x: T, key: T -> int) returns (r: seq<T>)
    requires SortedBy(s, key)
    ensures SortedBy(r, key)
    ensures multiset(r) == multiset(s) + multiset{x}
  {
    var j := |s|;
    while j > 0 && key(s[j - 1]) > key(x)
      invariant 0 <= j <= |s|
      invariant forall m :: j <= m < |s| ==> key(s[m]) > key(x)
    {
      j := j - 1;
    }
    InsertedIsSorted(s, x, j, key);
    InsertedElements(s, x, j);
    r := s[..j] + [x] + s[j..];
  }

  lemma InsertedIsSorted<T>(s: seq<T>, x: T, j: nat, key: T -> int)
    requires SortedBy(s, key) && j <= |s|
    requires j > 0 ==> key(s[j - 1]) <= key(x)
    requires forall m :: j <= m < |s| ==> key(x) <= key(s[m])
    ensures SortedBy(s[..j] + [x] + s[j..], key)
  {
    var r := s[..j] + [x] + s[j..];
    forall a, b | 0 <= a < b < |r| ensures key(r[a]) <= key(r[b]) {
      assert r[a] == if a < j then s[a] else if a == j then x else s[a - 1];
      assert r[b] == if b < j then s[b] else if b == j then x else s[b - 1];
    }
  }

  lemma InsertedElements<T>(s: seq<T>, x: T, j: nat)
    requires j <= |s|
    ensures multiset(s[..j] + [x] + s[j..]) == multiset(s) + multiset{x}
  {
    assert s == s[..j] + s[j..];
  }

  // A permutation has the same elements.
  lemma SameElements<T>(s: seq<T>, r: seq<T>)
    requires multiset(s) == multiset(r)
    ensures |s| == |r| && forall x :: x in s <==> x in r
  {
    assert |multiset(s)| == |s| && |multiset(r)| == |r|;
    forall x ensures x in s <==> x in r {
      assert x in s <==> x in multiset(s);
      assert x in r <==> x in multiset(r);
    }
  }

  // Sorting distinct keys sorts strictly.
  lemma DistinctSortsStrictly<T>(s: seq<T>, r: seq<T>, key: T -> int)
    requires multiset(s) == multiset(r) && DistinctBy(s, key) && SortedBy(r, key)
    ensures StrictlyBy(r, key)
  {
    SameElements(s, r);
    forall i, j | 0 <= i < j < |r| ensures key(r[i]) < key(r[j]) {
      if key(r[i]) == key(r[j]) {
        var x := r[i];
        assert x in s && r[j] in s;
        assert r[j] == x;
        Twice(r, i, j);
        Once(s, x, key);
        assert false;
      }
    }
  }

  lemma Twice<T>(r: seq<T>, i: nat, j: nat)
    requires i < j < |r| && r[i] == r[j]
    ensures multiset(r)[r[i]] >= 2
  {
    assert r == r[..j] + [r[j]] + r[j + 1..];
    assert r[..j][i] == r[i];
    assert r[i] in multiset(r[..j]);
  }

  lemma {:induction false} Once<T>(s: seq<T>, x: T, key: T -> int)
    requires DistinctBy(s, key)
    ensures multiset(s)[x] <= 1
    decreases |s|
  {
    if s != [] {
      var n := |s| - 1;
      assert s == s[..n] + [s[n]];
      Once(s[..n], x, key);
      if x == s[n] {
        assert x !in s[..n];
        assert multiset(s[..n])[x] == 0;
      }
    }
  }

  // Strictly sorted sequences with the same elements are equal.
  lemma {:induction false} StrictlySortedIsUnique<T>(s: seq<T>, r: seq<T>, key: T -> int)
    requires StrictlyBy(s, key) && StrictlyBy(r, key) && forall x :: x in s <==> x in r
    ensures s == r
    decreases |s|
  {
    var n, m := |s| - 1, |r| - 1;
    assert n >= 0 ==> s[n] in r;
    assert m >= 0 ==> r[m] in s;
    if n >= 0 {
      var i :| 0 <= i <= m && r[i] == s[n];
      var j :| 0 <= j <= n && s[j] == r[m];
      assert i == m && j == n;
      forall x ensures x in s[..n] <==> x in r[..m] {
        if x in s[..n] { assert x in s && x != s[n]; assert x in r; }
        if x in r[..m] { assert x in r && x != r[m]; assert x in s; }
      }
      StrictlySortedIsUnique(s[..n], r[..m], key);
    }
  }

  lemma {:induction false} OnceDistinct<T>(s: seq<T>, x: T)
    requires Distinct(s)
    ensures multiset(s)[x] <= 1
    decreases |s|
  {
    if s != [] {
      var n := |s| - 1;
      assert s == s[..n] + [s[n]];
      OnceDistinct(s[..n], x);
      if x == s[n] {
        assert x !in s[..n];
        assert multiset(s[..n])[x] == 0;
      }
    }
  }

  // A sequence without the element at i.
  function WithoutAt<T>(s: seq<T>, i: nat): (r: seq<T>)
    requires i < |s|
    ensures |r| == |s| - 1 && forall j :: 0 <= j < |r| ==> r[j] == if j < i then s[j] else s[j + 1]
  {
    s[..i] + s[i + 1..]
  }

  lemma WithoutAtMembers<T>(s: seq<T>, i: nat, x: T)
    requires Distinct(s) && i < |s|
    ensures x in WithoutAt(s, i) <==> x in s && x != s[i]
  {
    if x in s && x != s[i] {
      var j :| 0 <= j < |s| && s[j] == x;
      assert WithoutAt(s, i)[if j < i then j else j - 1] == x;
    }
  }

  lemma WithoutAtSorts<T>(s: seq<T>, i: nat, key: T -> int)
    requires Distinct(s) && SortedBy(s, key) && i < |s|
    ensures Distinct(WithoutAt(s, i)) && SortedBy(WithoutAt(s, i), key)
  {
  }

  lemma SameWithoutLast<T>(s: seq<T>, r: seq<T>, i: nat)
    requires s != [] && Distinct(s) && Distinct(r)
    requires (forall x :: x in s <==> x in r) && i < |r| && r[i] == s[|s| - 1]
    ensures forall x :: x in s[..|s| - 1] <==> x in WithoutAt(r, i)
  {
    forall x ensures x in s[..|s| - 1] <==> x in WithoutAt(r, i) {
      WithoutAtMembers(r, i, x);
      WithoutAtMembers(s, |s| - 1, x);
      assert WithoutAt(s, |s| - 1) == s[..|s| - 1];
    }
  }

  // What follows the last element of one sorted list in another is tied with it.
  lemma TiesWithLast<T>(s: seq<T>, r: seq<T>, i: nat, key: T -> int)
    requires s != [] && SortedBy(s, key) && SortedBy(r, key)
    requires (forall x :: x in s <==> x in r) && i < |r| && r[i] == s[|s| - 1]
    ensures forall x :: x in r[i + 1..] ==> x in s && key(x) == key(r[i])
  {
    var n := |s| - 1;
    forall x | x in r[i + 1..] ensures x in s && key(x) == key(r[i]) {
      var j :| i < j < |r| && r[j] == x;
      assert r[j] in r && r[j] in s;
      var m :| 0 <= m <= n && s[m] == x;
      assert key(r[i]) <= key(r[j]) && (m < n ==> key(s[m]) <= key(s[n]));
    }
  }

  // Two tied elements between the lesser or tied and the greater ones.
  lemma SortedAround<T>(l: seq<T>, x: T, y: T, r: seq<T>, key: T -> int)
    requires SortedBy(l, key) && SortedBy(r, key) && Distinct(l) && Distinct(r) && x != y && key(x) == key(y)
    requires forall z :: z in l ==> key(z) <= key(x) && z != x && z != y
    requires forall z :: z in r ==> key(z) > key(x)
    ensures SortedBy(l + [x, y] + r, key) && Distinct(l + [x, y] + r)
  {
    var s := l + [x, y] + r;
    var n := |l|;
    forall i, j | 0 <= i < j < |s| ensures key(s[i]) <= key(s[j]) && s[i] != s[j] {
      assert s[i] == if i < n then l[i] else if i == n then x else if i == n + 1 then y else r[i - n - 2];
      assert s[j] == if j < n then l[j] else if j == n then x else if j == n + 1 then y else r[j - n - 2];
      assert i < n ==> l[i] in l;
      assert j >= n + 2 ==> r[j - n - 2] in r;
    }
  }
}
