/** `ORDER BY key DESC`: a stable insertion sort on an integer key. */
module Sorting {

  /** Keys never increase from left to right. */
  predicate SortedDesc<T>(s: seq<T>, key: T -> int) {
    forall i, j :: 0 <= i < j < |s| ==> key(s[i]) >= key(s[j])
  }

  /** Puts `x` into the descending sequence `s`, after every element whose
      key is at least as large. */
  function Insert<T>(x: T, s: seq<T>, key: T -> int): (r: seq<T>)
    requires SortedDesc(s, key)
    ensures multiset(r) == multiset(s) + multiset{x}
    ensures SortedDesc(r, key)
  {
    if |s| == 0 then [x]
    else if key(x) > key(s[0]) then
      [x] + s
    else
      var tail := Insert(x, s[1..], key);
      InsertBehindHead(x, s, tail, key);
      [s[0]] + tail
  }

  /** The head of `s` stays in front of everything inserted behind it. */
  lemma InsertBehindHead<T>(x: T, s: seq<T>, tail: seq<T>, key: T -> int)
    requires |s| > 0 && SortedDesc(s, key) && key(x) <= key(s[0])
    requires multiset(tail) == multiset(s[1..]) + multiset{x}
    requires SortedDesc(tail, key)
    ensures multiset([s[0]] + tail) == multiset(s) + multiset{x}
    ensures SortedDesc([s[0]] + tail, key)
  {
    assert s == [s[0]] + s[1..];
    var r := [s[0]] + tail;
    forall j | 0 < j < |r| ensures key(r[0]) >= key(r[j]) {
      assert r[j] == tail[j - 1];
      assert r[j] in multiset(tail);
      if r[j] != x {
        assert r[j] in multiset(s[1..]);
        var k :| 0 <= k < |s[1..]| && s[1..][k] == r[j];
        assert s[k + 1] == r[j];
      }
    }
  }

  /** The elements of `s`, rearranged by descending key. */
  function SortDesc<T>(s: seq<T>, key: T -> int): (r: seq<T>)
    ensures multiset(r) == multiset(s)
    ensures |r| == |s|
    ensures SortedDesc(r, key)
  {
    if |s| == 0 then []
    else
      var init := s[..|s| - 1];
      assert s == init + [s[|s| - 1]];
      var r := Insert(s[|s| - 1], SortDesc(init, key), key);
      assert |r| == |multiset(r)| == |multiset(s)| == |s|;
      r
  }

  /** Two arrangements of the same elements have the same members. */
  lemma SameMembers<T>(a: seq<T>, b: seq<T>)
    requires multiset(a) == multiset(b)
    ensures forall x :: x in a <==> x in b
  {
    forall x ensures x in a <==> x in b {
      assert x in a <==> x in multiset(a);
      assert x in b <==> x in multiset(b);
    }
  }
}
