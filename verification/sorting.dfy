/** Ordering by a key, newest first: `ORDER BY timestamp DESC` in the message
    queries and `list.sort(key=..., reverse=True)` in the chat list. */
module Sorting {

  /** Keys never increase along `s`. */
  predicate SortedDesc<T>(s: seq<T>, key: T -> int) {
    forall i, j :: 0 <= i < j < |s| ==> key(s[i]) >= key(s[j])
  }

  /** Puts `x` into the sorted `s` ahead of every element whose key is not
      larger, so an element that came first stays ahead of its equals. */
  function Insert<T>(x: T, s: seq<T>, key: T -> int): (r: seq<T>)
    requires SortedDesc(s, key)
    ensures |r| == |s| + 1
    ensures multiset(r) == multiset(s) + multiset{x}
    ensures SortedDesc(r, key)
  {
    if s == [] || key(x) >= key(s[0]) then [x] + s
    else
      var t := Insert(x, s[1..], key);
      ConsSorted(x, s, t, key);
      assert s == [s[0]] + s[1..];
      [s[0]] + t
  }

  /** Putting `s[0]` in front of a sorted rearrangement of `s[1..]` plus a
      smaller `x` keeps the order. */
  lemma ConsSorted<T>(x: T, s: seq<T>, t: seq<T>, key: T -> int)
    requires s != [] && SortedDesc(s, key) && key(x) < key(s[0])
    requires multiset(t) == multiset(s[1..]) + multiset{x}
    requires SortedDesc(t, key)
    ensures SortedDesc([s[0]] + t, key)
  {
    var r := [s[0]] + t;
    forall i, j | 0 <= i < j < |r|
      ensures key(r[i]) >= key(r[j])
    {
      if i == 0 {
        var y := t[j - 1];
        assert y in multiset(t);
        if y != x {
          assert y in multiset(s[1..]);
          var k :| 0 <= k < |s[1..]| && s[1..][k] == y;
          assert s[k + 1] == y;
        }
      } else {
        assert r[i] == t[i - 1] && r[j] == t[j - 1];
      }
    }
  }

  /** The elements of `s` ordered by non-increasing key. */
  function SortDesc<T>(s: seq<T>, key: T -> int): (r: seq<T>)
    ensures |r| == |s|
    ensures multiset(r) == multiset(s)
    ensures SortedDesc(r, key)
  {
    if s == [] then []
    else
      assert s == [s[0]] + s[1..];
      Insert(s[0], SortDesc(s[1..], key), key)
  }

  /** The head of a sorted permutation of `s` has the largest key in `s`. */
  lemma HeadIsMax<T>(s: seq<T>, r: seq<T>, key: T -> int, x: T)
    requires multiset(r) == multiset(s)
    requires SortedDesc(r, key)
    requires x in s
    ensures r != [] && key(r[0]) >= key(x)
  {
    assert x in multiset(r);
    var j :| 0 <= j < |r| && r[j] == x;
  }

  /** No two positions of `s` agree on `f`. */
  predicate Distinct<T, K(==)>(s: seq<T>, f: T -> K) {
    forall i, j :: 0 <= i < j < |s| ==> f(s[i]) != f(s[j])
  }

  /** Inserting an element whose `f` is new keeps the `f` values distinct. */
  lemma {:induction false} InsertKeepsDistinct<T, K>(x: T, s: seq<T>, key: T -> int, f: T -> K)
    requires SortedDesc(s, key) && Distinct(s, f)
    requires forall y :: y in s ==> f(y) != f(x)
    ensures Distinct(Insert(x, s, key), f)
  {
    if s == [] || key(x) >= key(s[0]) {
      var r := [x] + s;
      forall i, j | 0 <= i < j < |r|
        ensures f(r[i]) != f(r[j])
      {
        assert r[j] == s[j - 1];
        if i > 0 {
          assert r[i] == s[i - 1];
        }
      }
    } else {
      var t := Insert(x, s[1..], key);
      InsertKeepsDistinct(x, s[1..], key, f);
      var r := [s[0]] + t;
      forall i, j | 0 <= i < j < |r|
        ensures f(r[i]) != f(r[j])
      {
        if i == 0 {
          var y := t[j - 1];
          assert y in multiset(t);
          if y != x {
            assert y in multiset(s[1..]);
            var k :| 0 <= k < |s[1..]| && s[1..][k] == y;
            assert s[k + 1] == y;
          }
        } else {
          assert r[i] == t[i - 1] && r[j] == t[j - 1];
        }
      }
    }
  }

  /** Sorting keeps the `f` values distinct: it only rearranges. */
  lemma {:induction false} SortKeepsDistinct<T, K>(s: seq<T>, key: T -> int, f: T -> K)
    requires Distinct(s, f)
    ensures Distinct(SortDesc(s, key), f)
  {
    if s != [] {
      var t := SortDesc(s[1..], key);
      SortKeepsDistinct(s[1..], key, f);
      forall y | y in t
        ensures f(y) != f(s[0])
      {
        assert y in multiset(s[1..]);
        var k :| 0 <= k < |s[1..]| && s[1..][k] == y;
        assert s[k + 1] == y;
      }
      InsertKeepsDistinct(s[0], t, key, f);
    }
  }
}
