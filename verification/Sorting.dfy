/** The stable library sort (`list.sort(key=...)`, `Array.prototype.sort`) as a function, and what it promises. */
module Sorting {
  import opened Common

  /** Puts x after every element whose key is not greater: this is what makes the sort stable. */
  function InsertBy<T(!new)>(s: seq<T>, x: T, key: T -> int): (r: seq<T>)
    ensures |r| == |s| + 1
    ensures forall y :: y in r <==> y == x || y in s
  {
    if s == [] then [x]
    else if key(s[|s| - 1]) <= key(x) then s + [x]
    else InsertBy(s[..|s| - 1], x, key) + [s[|s| - 1]]
  }

  function SortBy<T(!new)>(s: seq<T>, key: T -> int): (r: seq<T>)
    ensures |r| == |s|
    ensures forall y :: y in r <==> y in s
  {
    if s == [] then [] else
      assert s == s[..|s| - 1] + [s[|s| - 1]];
      InsertBy(SortBy(s[..|s| - 1], key), s[|s| - 1], key)
  }

  ghost predicate Ascending<T>(s: seq<T>, key: T -> int) {
    forall i, j :: 0 <= i < j < |s| ==> key(s[i]) <= key(s[j])
  }

  ghost predicate StrictlyAscending<T>(s: seq<T>, key: T -> int) {
    forall i, j :: 0 <= i < j < |s| ==> key(s[i]) < key(s[j])
  }

  lemma {:induction false} InsertAscending<T(!new)>(s: seq<T>, x: T, key: T -> int)
    requires Ascending(s, key)
    ensures Ascending(InsertBy(s, x, key), key)
  {
    if s != [] && key(s[|s| - 1]) > key(x) {
      var front, last := s[..|s| - 1], s[|s| - 1];
      InsertAscending(front, x, key);
      var r := InsertBy(front, x, key);
      forall i | 0 <= i < |r| ensures key(r[i]) <= key(last) {
        assert r[i] in r;
      }
    }
  }

  lemma {:induction false} InsertMultiset<T(!new)>(s: seq<T>, x: T, key: T -> int)
    ensures multiset(InsertBy(s, x, key)) == multiset(s) + multiset{x}
  {
    if s != [] && key(s[|s| - 1]) > key(x) {
      InsertMultiset(s[..|s| - 1], x, key);
      assert s == s[..|s| - 1] + [s[|s| - 1]];
    }
  }

  /** The sort orders by key and keeps every element as often as it occurs. */
  lemma {:induction false} SortAscending<T(!new)>(s: seq<T>, key: T -> int)
    ensures Ascending(SortBy(s, key), key)
    ensures multiset(SortBy(s, key)) == multiset(s)
  {
    if s != [] {
      var front := s[..|s| - 1];
      assert s == front + [s[|s| - 1]];
      SortAscending(front, key);
      InsertAscending(SortBy(front, key), s[|s| - 1], key);
      InsertMultiset(SortBy(front, key), s[|s| - 1], key);
    }
  }

  /** The elements of s whose key is k, in the order s has them. */
  function WithKey<T(!new)>(s: seq<T>, key: T -> int, k: int): (r: seq<T>)
    ensures forall x :: x in r <==> x in s && key(x) == k
  {
    if s == [] then [] else
      assert s == s[..|s| - 1] + [s[|s| - 1]];
      WithKey(s[..|s| - 1], key, k) + (if key(s[|s| - 1]) == k then [s[|s| - 1]] else [])
  }

  function Only<T>(x: T, key: T -> int, k: int): seq<T> {
    if key(x) == k then [x] else []
  }

  lemma WithKeySnoc<T(!new)>(s: seq<T>, x: T, key: T -> int, k: int)
    ensures WithKey(s + [x], key, k) == WithKey(s, key, k) + Only(x, key, k)
  {
    assert (s + [x])[..|s|] == s;
  }

  lemma Swap<T>(a: seq<T>, b: seq<T>, c: seq<T>)
    requires b == [] || c == []
    ensures a + b + c == a + c + b
  {
  }

  lemma {:induction false} InsertStable<T(!new)>(s: seq<T>, x: T, key: T -> int, k: int)
    requires Ascending(s, key)
    ensures WithKey(InsertBy(s, x, key), key, k) == WithKey(s, key, k) + Only(x, key, k)
  {
    if s == [] || key(s[|s| - 1]) <= key(x) {
      WithKeySnoc(s, x, key, k);
      assert s + [x] == InsertBy(s, x, key);
    } else {
      var front, last := s[..|s| - 1], s[|s| - 1];
      InsertStable(front, x, key, k);
      WithKeySnoc(InsertBy(front, x, key), last, key, k);
      WithKeySnoc(front, last, key, k);
      assert s == front + [last];
      Swap(WithKey(front, key, k), Only(x, key, k), Only(last, key, k));
    }
  }

  /** Elements with equal keys keep their order. */
  lemma {:induction false} SortStable<T(!new)>(s: seq<T>, key: T -> int, k: int)
    ensures WithKey(SortBy(s, key), key, k) == WithKey(s, key, k)
  {
    if s != [] {
      var front, last := s[..|s| - 1], s[|s| - 1];
      SortStable(front, key, k);
      SortAscending(front, key);
      InsertStable(SortBy(front, key), last, key, k);
    }
  }

  /** Ordered by key, and by tag among equal keys. */
  ghost predicate ByKeyThenTag<T>(s: seq<T>, key: T -> int, tag: T -> int) {
    forall i, j :: 0 <= i < j < |s| ==>
      key(s[i]) < key(s[j]) || (key(s[i]) == key(s[j]) && tag(s[i]) < tag(s[j]))
  }

  lemma {:induction false} InsertInOrder<T(!new)>(s: seq<T>, x: T, key: T -> int, tag: T -> int)
    requires ByKeyThenTag(s, key, tag) && forall y :: y in s ==> tag(y) < tag(x)
    ensures ByKeyThenTag(InsertBy(s, x, key), key, tag)
  {
    if s != [] && key(s[|s| - 1]) > key(x) {
      var front, last := s[..|s| - 1], s[|s| - 1];
      InsertInOrder(front, x, key, tag);
      var r := InsertBy(front, x, key);
      forall i | 0 <= i < |r| ensures key(r[i]) < key(last) || (key(r[i]) == key(last) && tag(r[i]) < tag(last)) {
        assert r[i] in r;
      }
    }
  }

  /** Sorting a list that ascends by a tag keeps that order among equal keys. */
  lemma {:induction false} SortInOrder<T(!new)>(s: seq<T>, key: T -> int, tag: T -> int)
    requires StrictlyAscending(s, tag)
    ensures ByKeyThenTag(SortBy(s, key), key, tag)
  {
    if s != [] {
      var front, last := s[..|s| - 1], s[|s| - 1];
      SortInOrder(front, key, tag);
      forall y | y in SortBy(front, key) ensures tag(y) < tag(last) {
        assert y in front;
      }
      InsertInOrder(SortBy(front, key), last, key, tag);
    }
  }

  /** Pairwise different keys make the order strict, so the result depends only on the set sorted. */
  lemma SortStrict<T(!new)>(s: seq<T>, key: T -> int)
    requires forall i, j :: 0 <= i < j < |s| ==> key(s[i]) != key(s[j])
    ensures StrictlyAscending(SortBy(s, key), key)
  {
    var r := SortBy(s, key);
    SortAscending(s, key);
    SortKeepsTagsApart(s, key, key);
    forall i, j | 0 <= i < j < |r| ensures key(r[i]) < key(r[j]) {
      assert key(r[i]) <= key(r[j]) && key(r[i]) != key(r[j]);
    }
  }

  lemma TwiceInMultiset<T(!new)>(s: seq<T>, i: nat, j: nat)
    requires i < j < |s| && s[i] == s[j]
    ensures multiset(s)[s[i]] >= 2
  {
    assert s == s[..j] + [s[j]] + s[j + 1..];
    assert s[i] in s[..j];
    assert multiset(s) == multiset(s[..j]) + multiset{s[j]} + multiset(s[j + 1..]);
  }

  lemma OnceInMultiset<T(!new)>(s: seq<T>, i: nat)
    requires i < |s|
    requires forall j :: 0 <= j < |s| && j != i ==> s[j] != s[i]
    ensures multiset(s)[s[i]] == 1
  {
    assert s == s[..i] + [s[i]] + s[i + 1..];
    assert s[i] !in s[..i] && s[i] !in s[i + 1..];
    assert multiset(s) == multiset(s[..i]) + multiset{s[i]} + multiset(s[i + 1..]);
  }

  /** A tag that tells elements apart before the sort still does afterwards. */
  lemma SortKeepsTagsApart<T(!new), U>(s: seq<T>, key: T -> int, tag: T -> U)
    requires forall i, j :: 0 <= i < j < |s| ==> tag(s[i]) != tag(s[j])
    ensures forall i, j :: 0 <= i < j < |s| ==> tag(SortBy(s, key)[i]) != tag(SortBy(s, key)[j])
  {
    SortAscending(s, key);
    var r := SortBy(s, key);
    forall i, j | 0 <= i < j < |r| ensures tag(r[i]) != tag(r[j]) {
      assert r[i] in s && r[j] in s;
      var a :| 0 <= a < |s| && s[a] == r[i];
      var b :| 0 <= b < |s| && s[b] == r[j];
      if a == b {
        TwiceInMultiset(r, i, j);
        OnceInMultiset(s, a);
      }
    }
  }

  /** Two strictly ascending sequences with the same elements are the same sequence. */
  lemma {:induction false} StrictOrderUnique<T(!new)>(a: seq<T>, b: seq<T>, key: T -> int)
    requires StrictlyAscending(a, key) && StrictlyAscending(b, key)
    requires forall x :: x in a <==> x in b
    ensures a == b
    decreases |a|
  {
    assert |b| > 0 ==> b[0] in a;
    assert |a| > 0 ==> a[0] in b;
    if |a| != 0 && |b| != 0 {
      var n, m := |a| - 1, |b| - 1;
      assert a[n] in b && b[m] in a;
      var i :| 0 <= i < |a| && a[i] == b[m];
      var j :| 0 <= j < |b| && b[j] == a[n];
      assert i == n && j == m;
      forall x ensures x in a[..n] <==> x in b[..m] {
        assert a == a[..n] + [a[n]] && b == b[..m] + [b[m]];
        if x in a[..n] {
          var k :| 0 <= k < n && a[k] == x;
          assert key(x) < key(a[n]);
          assert x in a;
        }
        if x in b[..m] {
          var k :| 0 <= k < m && b[k] == x;
          assert key(x) < key(b[m]);
          assert x in b;
        }
      }
      StrictOrderUnique(a[..n], b[..m], key);
    }
  }
}
