/** Generic sequence operations the handlers are built from: the query
    primitives `filter(...)`, `.first()`, `.limit(n)` and Python's `reversed`. */
module Seqs {
  import opened Common

  /** The elements of `s` that satisfy `p`, in their original order. */
  function Filter<T>(s: seq<T>, p: T -> bool): (r: seq<T>)
    ensures |r| <= |s|
    ensures forall x :: x in r ==> x in s && p(x)
    ensures forall x :: x in s && p(x) ==> x in r
    ensures multiset(r) <= multiset(s)
  {
    if s == [] then []
    else
      assert s == [s[0]] + s[1..];
      if p(s[0]) then [s[0]] + Filter(s[1..], p) else Filter(s[1..], p)
  }

  /** Index of the first element of `s` that satisfies `p` (`query.first()`). */
  function FirstIndex<T>(s: seq<T>, p: T -> bool): (r: Option<nat>)
    ensures r.Some? ==> r.value < |s| && p(s[r.value])
    ensures r.Some? ==> forall k :: 0 <= k < r.value ==> !p(s[k])
    ensures r.None? ==> forall k :: 0 <= k < |s| ==> !p(s[k])
  {
    if s == [] then None
    else if p(s[0]) then Some(0)
    else
      match FirstIndex(s[1..], p)
      case None => None
      case Some(i) => Some(i + 1)
  }

  /** The first `n` elements of `s`, or all of them when there are fewer
      (`query.limit(n)`). */
  function Take<T>(s: seq<T>, n: nat): (r: seq<T>)
    ensures |r| == if |s| < n then |s| else n
    ensures r == s[..|r|]
  {
    if |s| <= n then s else s[..n]
  }

  /** `reversed(s)`. */
  function Reverse<T>(s: seq<T>): (r: seq<T>)
    ensures |r| == |s|
    ensures forall i :: 0 <= i < |s| ==> r[i] == s[|s| - 1 - i]
  {
    if s == [] then [] else Reverse(s[1..]) + [s[0]]
  }

  /** Applies `f` to every element, keeping the order. */
  function Map<T, U>(s: seq<T>, f: T -> U): (r: seq<U>)
    ensures |r| == |s|
    ensures forall i :: 0 <= i < |s| ==> r[i] == f(s[i])
  {
    if s == [] then [] else [f(s[0])] + Map(s[1..], f)
  }

  /** `q` is a prefix of `t`. */
  predicate IsPrefix(q: string, t: string) {
    |q| <= |t| && t[..|q|] == q
  }

  /** `q` occurs as a contiguous block somewhere in `s`. */
  ghost predicate Contains(s: string, q: string) {
    exists i :: 0 <= i <= |s| && IsPrefix(q, s[i..])
  }

  /** `f` applied to every element, in order, or None when any application
      gives None. */
  function AllSome<T, U>(s: seq<T>, f: T -> Option<U>): (r: Option<seq<U>>)
    ensures r.None? <==> exists i :: 0 <= i < |s| && f(s[i]).None?
    ensures r.Some? ==> |r.value| == |s|
    ensures r.Some? ==> forall i :: 0 <= i < |s| ==> f(s[i]) == Some(r.value[i])
  {
    if s == [] then Some([])
    else
      var head := f(s[0]);
      var tail := AllSome(s[1..], f);
      if head.None? then None
      else if tail.None? then
        var i :| 0 <= i < |s[1..]| && f(s[1..][i]).None?;
        assert s[1..][i] == s[i + 1];
        None
      else
        var r := [head.value] + tail.value;
        assert forall i :: 1 <= i < |s| ==> s[i] == s[1..][i - 1] && r[i] == tail.value[i - 1];
        Some(r)
  }

  /** `OFFSET offset LIMIT limit`, with no LIMIT when `limit` is None: the
      elements ranked `offset` to `offset + limit - 1`, as far as they exist. */
  function Window<T>(s: seq<T>, offset: nat, limit: Option<nat>): (r: seq<T>)
    ensures |r| == if offset >= |s| then 0
                   else if limit.Some? && offset + limit.value < |s| then limit.value
                   else |s| - offset
    ensures forall i :: 0 <= i < |r| ==> offset + i < |s| && r[i] == s[offset + i]
  {
    if offset >= |s| then []
    else if limit.Some? && offset + limit.value < |s| then s[offset..offset + limit.value]
    else s[offset..]
  }

  /** A window of `n` followed by the window right after it is the window
      that spans both. */
  lemma WindowsTile<T>(s: seq<T>, offset: nat, n: nat, limit: Option<nat>)
    ensures Window(s, offset, Some(n)) + Window(s, offset + n, limit)
            == Window(s, offset, if limit.Some? then Some(n + limit.value) else None)
  {
    var a, b := Window(s, offset, Some(n)), Window(s, offset + n, limit);
    var c := Window(s, offset, if limit.Some? then Some(n + limit.value) else None);
    if offset + n >= |s| {
      assert b == [] && a == c;
    } else {
      assert |a| == n;
      assert |a + b| == |c|;
      forall i | 0 <= i < |c| ensures (a + b)[i] == c[i] {
        if i >= n {
          assert (a + b)[i] == b[i - n] == s[offset + n + (i - n)];
        }
      }
    }
  }

  /** `reversed` turns a concatenation around. */
  lemma ReverseAppend<T>(a: seq<T>, b: seq<T>)
    ensures Reverse(a + b) == Reverse(b) + Reverse(a)
  {
    var l, r := Reverse(a + b), Reverse(b) + Reverse(a);
    forall i | 0 <= i < |l| ensures l[i] == r[i] {
      if i < |b| {
        assert l[i] == (a + b)[|a| + |b| - 1 - i];
      } else {
        assert r[i] == Reverse(a)[i - |b|];
      }
    }
  }
}
