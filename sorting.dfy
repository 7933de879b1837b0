/** Sorting rows by an integer column and taking the first rows, as
    `sort_values(col, ascending=...).head(n)` does. pandas' default sort is
    not stable, so only the order of the keys and the multiset of rows are
    specified; the order among rows with equal keys is left open. */
module Sorting {
  import opened Basics

  /** `a` may come before `b` in a sort by `key` in the given direction. */
  predicate InOrder<T>(key: T -> int, descending: bool, a: T, b: T) {
    if descending then key(a) >= key(b) else key(a) <= key(b)
  }

  predicate SortedBy<T>(s: seq<T>, key: T -> int, descending: bool) {
    forall i, j :: 0 <= i < j < |s| ==> InOrder(key, descending, s[i], s[j])
  }

  /** Puts `x` in front of the first element it may precede. */
  function Insert<T>(x: T, s: seq<T>, key: T -> int, descending: bool): (r: seq<T>)
    requires SortedBy(s, key, descending)
    ensures |r| == |s| + 1
    ensures multiset(r) == multiset(s) + multiset{x}
    ensures SortedBy(r, key, descending)
  {
    if s == [] then [x]
    else if InOrder(key, descending, x, s[0]) then [x] + s
    else
      var rest := Insert(x, s[1..], key, descending);
      assert s == [s[0]] + s[1..];
      HeadPrecedesInsert(x, s, rest, key, descending);
      [s[0]] + rest
  }

  /** When `x` may not precede the head of `s`, the head may precede every
      element of `x` inserted into the tail. */
  lemma HeadPrecedesInsert<T>(x: T, s: seq<T>, rest: seq<T>, key: T -> int, descending: bool)
    requires s != [] && SortedBy(s, key, descending)
    requires !InOrder(key, descending, x, s[0])
    requires multiset(rest) == multiset(s[1..]) + multiset{x}
    ensures forall j :: 0 <= j < |rest| ==> InOrder(key, descending, s[0], rest[j])
  {
    forall j | 0 <= j < |rest|
      ensures InOrder(key, descending, s[0], rest[j])
    {
      assert rest[j] in multiset(rest);
      if rest[j] != x {
        assert rest[j] in multiset(s[1..]);
        var i :| 0 <= i < |s[1..]| && s[1..][i] == rest[j];
        assert s[i + 1] == rest[j];
      }
    }
  }

  /** A sort of `s` by `key`: the same rows, with keys in the requested order. */
  function SortBy<T>(s: seq<T>, key: T -> int, descending: bool): (r: seq<T>)
    ensures |r| == |s|
    ensures multiset(r) == multiset(s)
    ensures SortedBy(r, key, descending)
  {
    if s == [] then []
    else
      assert s == [s[0]] + s[1..];
      Insert(s[0], SortBy(s[1..], key, descending), key, descending)
  }

  /** `sort_values(...).head(n)`: the first `n` rows of the sorted table (all
      of them when there are fewer). The selection is a sub-multiset of the
      table, is itself sorted, and no row left out could have been ranked
      ahead of a row that was taken. */
  function TopN<T>(s: seq<T>, key: T -> int, descending: bool, n: nat): (r: seq<T>)
    ensures |r| == Min(n, |s|)
    ensures multiset(r) <= multiset(s)
    ensures SortedBy(r, key, descending)
    ensures forall x, y | x in multiset(s) - multiset(r) && y in r :: InOrder(key, descending, y, x)
  {
    var sorted := SortBy(s, key, descending);
    var k := Min(n, |s|);
    SplitSorted(sorted, key, descending, k);
    sorted[..k]
  }

  /** In a sorted sequence, every element of a prefix may precede every
      element of the rest, and the two parts make up the whole. */
  lemma SplitSorted<T>(s: seq<T>, key: T -> int, descending: bool, k: nat)
    requires SortedBy(s, key, descending) && k <= |s|
    ensures multiset(s) == multiset(s[..k]) + multiset(s[k..])
    ensures multiset(s) - multiset(s[..k]) == multiset(s[k..])
    ensures forall x, y | x in multiset(s[k..]) && y in s[..k] :: InOrder(key, descending, y, x)
  {
    assert s == s[..k] + s[k..];
    forall x, y | x in multiset(s[k..]) && y in s[..k]
      ensures InOrder(key, descending, y, x)
    {
      var j :| 0 <= j < |s[k..]| && s[k..][j] == x;
      var i :| 0 <= i < k && s[..k][i] == y;
      assert s[i] == y && s[k + j] == x;
    }
  }
}
