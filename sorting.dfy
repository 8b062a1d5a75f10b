/** Sorting a table's rows by an integer column, as `DataFrame.sort_values` does. The
    order among rows with equal keys is not part of any promise made about the result. */
module Sorting {
  predicate SortedBy<T>(s: seq<T>, key: T -> int) {
    forall i, j :: 0 <= i < j < |s| ==> key(s[i]) <= key(s[j])
  }

  function Insert<T>(x: T, s: seq<T>, key: T -> int): (r: seq<T>)
    requires SortedBy(s, key)
    ensures SortedBy(r, key)
    ensures multiset(r) == multiset(s) + multiset{x}
    decreases |s|
  {
    if |s| == 0 then [x]
    else if key(x) <= key(s[0]) then [x] + s
    else
      var t := Insert(x, s[1..], key);
      assert s == [s[0]] + s[1..];
      InsertBelow(s[0], x, s[1..], t, key);
      [s[0]] + t
  }

  /** A head no larger than anything in `rest` or `x` stays in front of the insertion. */
  lemma InsertBelow<T>(h: T, x: T, rest: seq<T>, t: seq<T>, key: T -> int)
    requires SortedBy([h] + rest, key) && key(h) <= key(x)
    requires SortedBy(t, key) && multiset(t) == multiset(rest) + multiset{x}
    ensures SortedBy([h] + t, key)
  {
    forall i | 0 <= i < |t| ensures key(h) <= key(t[i]) {
      assert t[i] in multiset(rest) + multiset{x};
      if t[i] != x {
        assert t[i] in rest;
        var j :| 0 <= j < |rest| && rest[j] == t[i];
        assert ([h] + rest)[0] == h && ([h] + rest)[j + 1] == t[i];
      }
    }
    var r := [h] + t;
    forall i, j | 0 <= i < j < |r| ensures key(r[i]) <= key(r[j]) {
      if i > 0 {
        assert r[i] == t[i - 1] && r[j] == t[j - 1];
      }
    }
  }

  /** The rows of `s` in ascending key order: sorted, and a permutation of `s`. */
  function SortBy<T>(s: seq<T>, key: T -> int): (r: seq<T>)
    ensures SortedBy(r, key)
    ensures multiset(r) == multiset(s)
    decreases |s|
  {
    if |s| == 0 then []
    else
      assert s == [s[0]] + s[1..];
      Insert(s[0], SortBy(s[1..], key), key)
  }
}
