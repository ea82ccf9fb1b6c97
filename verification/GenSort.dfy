/**
 Sorting transactions by a key, their generation.
 */
module GenSort {
  import opened BigEndian

  ghost predicate Sorted(key: Int64 -> int, s: seq<Int64>) {
    forall i, j :: 0 <= i < j < |s| ==> key(s[i]) <= key(s[j])
  }

  function InsertSorted(key: Int64 -> int, s: seq<Int64>, x: Int64): seq<Int64> {
    if s == [] || key(x) < key(s[0]) then [x] + s else [s[0]] + InsertSorted(key, s[1..], x)
  }

  function Sort(key: Int64 -> int, s: seq<Int64>): seq<Int64>
    decreases |s|
  {
    if s == [] then [] else InsertSorted(key, Sort(key, s[..|s| - 1]), s[|s| - 1])
  }

  lemma {:induction false} InsertMembers(key: Int64 -> int, s: seq<Int64>, x: Int64)
    ensures multiset(InsertSorted(key, s, x)) == multiset(s) + multiset{x}
    ensures forall y :: y in InsertSorted(key, s, x) ==> y in s || y == x
  {
    if !(s == [] || key(x) < key(s[0])) {
      InsertMembers(key, s[1..], x);
      assert s == [s[0]] + s[1..];
    }
  }

  lemma {:induction false} InsertKeepsSorted(key: Int64 -> int, s: seq<Int64>, x: Int64)
    requires Sorted(key, s)
    ensures Sorted(key, InsertSorted(key, s, x))
  {
    if !(s == [] || key(x) < key(s[0])) {
      var rest := InsertSorted(key, s[1..], x);
      InsertKeepsSorted(key, s[1..], x);
      InsertMembers(key, s[1..], x);
      assert forall i :: 0 <= i < |rest| ==> rest[i] in rest;
    }
  }

  /** The result is sorted and has the same members. */
  lemma {:induction false} SortIs(key: Int64 -> int, s: seq<Int64>)
    ensures Sorted(key, Sort(key, s)) && multiset(Sort(key, s)) == multiset(s)
    decreases |s|
  {
    if s != [] {
      var init, last := s[..|s| - 1], s[|s| - 1];
      assert s == init + [last];
      SortIs(key, init);
      InsertMembers(key, Sort(key, init), last);
      InsertKeepsSorted(key, Sort(key, init), last);
    }
  }

  /** With distinct keys there is only one sorted order, whatever algorithm finds it. */
  lemma {:induction false} OneOrder(key: Int64 -> int, a: seq<Int64>, b: seq<Int64>)
    requires Sorted(key, a) && Sorted(key, b) && multiset(a) == multiset(b)
    requires forall i, j :: 0 <= i < j < |a| ==> key(a[i]) != key(a[j])
    ensures a == b
    decreases |a|
  {
    assert |multiset(a)| == |multiset(b)|;
    if a != [] {
      FirstSame(key, a, b);
      RestMembers(a);
      RestMembers(b);
      OneOrder(key, a[1..], b[1..]);
      assert a == [a[0]] + a[1..] && b == [b[0]] + b[1..];
    }
  }

  lemma {:induction false} RestMembers(a: seq<Int64>)
    requires a != []
    ensures multiset(a[1..]) == multiset(a) - multiset{a[0]}
  {
    assert a == [a[0]] + a[1..];
  }

  lemma {:induction false} FirstSame(key: Int64 -> int, a: seq<Int64>, b: seq<Int64>)
    requires Sorted(key, a) && Sorted(key, b) && multiset(a) == multiset(b) && a != [] && b != []
    requires forall i, j :: 0 <= i < j < |a| ==> key(a[i]) != key(a[j])
    ensures a[0] == b[0]
  {
    assert a[0] in multiset(b) && b[0] in multiset(a);
    var i :| 0 <= i < |b| && b[i] == a[0];
    var j :| 0 <= j < |a| && a[j] == b[0];
    assert key(b[0]) <= key(a[0]) && key(a[0]) <= key(b[0]);
  }
}
