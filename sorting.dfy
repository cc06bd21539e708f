// The standard library's stable sort by key and `Vec::dedup`, as functions
// with their properties proved: the sort yields an ordered permutation and
// the dedup of an ordered sequence is strictly increasing with the same
// elements.

module Sorting {

  /** Ordered by `key`, smallest first. */
  ghost predicate SortedBy<T>(s: seq<T>, key: T -> int)
  {
    forall i, j :: 0 <= i < j < |s| ==> key(s[i]) <= key(s[j])
  }

  /** `x` inserted before the first element whose key is at least its own. */
  function Insert<T>(x: T, s: seq<T>, key: T -> int): (r: seq<T>)
    ensures multiset(r) == multiset(s) + multiset{x}
    ensures |r| == |s| + 1
  {
    if |s| == 0 then [x]
    else if key(x) <= key(s[0]) then [x] + s
    else
      assert s == [s[0]] + s[1..];
      [s[0]] + Insert(x, s[1..], key)
  }

  lemma {:induction false} InsertSorted<T>(x: T, s: seq<T>, key: T -> int)
    requires SortedBy(s, key)
    ensures SortedBy(Insert(x, s, key), key)
  {
    if |s| > 0 && key(x) > key(s[0]) {
      var rest := Insert(x, s[1..], key);
      InsertSorted(x, s[1..], key);
      forall k | 0 <= k < |rest|
        ensures key(s[0]) <= key(rest[k])
      {
        assert rest[k] in multiset(rest);
        assert rest[k] == x || rest[k] in multiset(s[1..]);
        if rest[k] != x {
          var m :| 0 <= m < |s[1..]| && s[1..][m] == rest[k];
          assert s[1..][m] == s[m + 1];
        }
      }
    }
  }

  /** `sort_by_key`: insertion of each element, last to first, into the
      ordered rest; an element goes before the later ones with the same key,
      so the sort is stable. */
  function SortBy<T>(s: seq<T>, key: T -> int): (r: seq<T>)
    ensures multiset(r) == multiset(s)
    ensures |r| == |s|
  {
    if |s| == 0 then []
    else
      assert s == [s[0]] + s[1..];
      Insert(s[0], SortBy(s[1..], key), key)
  }

  /** The sorted copy is ordered. */
  lemma {:induction false} SortSorted<T>(s: seq<T>, key: T -> int)
    ensures SortedBy(SortBy(s, key), key)
  {
    if |s| > 0 {
      SortSorted(s[1..], key);
      InsertSorted(s[0], SortBy(s[1..], key), key);
    }
  }

  /** The first element of an ordered sequence has the least key. */
  lemma SortedFirstLeast<T>(s: seq<T>, key: T -> int, v: T)
    requires SortedBy(s, key) && v in s
    ensures key(s[0]) <= key(v)
  {
    var i :| 0 <= i < |s| && s[i] == v;
    if i > 0 {
      assert key(s[0]) <= key(s[i]);
    }
  }

  /** Removing the same first element from two sequences with the same
      elements leaves the same elements. */
  lemma SameTail<T>(x: seq<T>, y: seq<T>)
    requires |x| > 0 && |y| > 0 && x[0] == y[0] && multiset(x) == multiset(y)
    ensures multiset(x[1..]) == multiset(y[1..])
  {
    assert x == [x[0]] + x[1..];
    assert multiset(x[1..]) == multiset(x) - multiset{x[0]};
    assert y == [y[0]] + y[1..];
    assert multiset(y[1..]) == multiset(y) - multiset{y[0]};
  }

  /** Two orderings of the same elements by a key that tells every two
      elements apart are the same sequence. */
  lemma {:induction false} SortedUnique<T>(x: seq<T>, y: seq<T>, key: T -> int)
    requires SortedBy(x, key) && SortedBy(y, key) && multiset(x) == multiset(y)
    requires forall a, b :: key(a) == key(b) ==> a == b
    ensures x == y
  {
    assert |x| == |multiset(x)| == |y|;
    if |x| > 0 {
      assert x[0] in multiset(y) && y[0] in multiset(x);
      SortedFirstLeast(y, key, x[0]);
      SortedFirstLeast(x, key, y[0]);
      assert key(x[0]) == key(y[0]);
      SameTail(x, y);
      SortedUnique(x[1..], y[1..], key);
    }
  }

  /** `Vec::dedup`: drop each element equal to the one before it. */
  function Dedup(s: seq<int>): (r: seq<int>)
    ensures |r| <= |s|
    ensures |s| > 0 ==> |r| > 0 && r[0] == s[0]
  {
    if |s| <= 1 then s
    else if s[0] == s[1] then Dedup(s[1..])
    else [s[0]] + Dedup(s[1..])
  }

  ghost predicate StrictlyIncreasing(s: seq<int>)
  {
    forall i, j :: 0 <= i < j < |s| ==> s[i] < s[j]
  }

  ghost predicate Ascending(s: seq<int>)
  {
    forall i, j :: 0 <= i < j < |s| ==> s[i] <= s[j]
  }

  /** Deduplicating an ascending sequence keeps its elements and leaves each once. */
  lemma {:induction false} DedupAscending(s: seq<int>)
    requires Ascending(s)
    ensures StrictlyIncreasing(Dedup(s))
    ensures forall v :: v in Dedup(s) <==> v in s
  {
    if |s| > 1 {
      DedupAscending(s[1..]);
      var rest := Dedup(s[1..]);
      assert rest[0] == s[1];
      if s[0] != s[1] {
        forall k | 0 <= k < |rest|
          ensures s[0] < rest[k]
        {
          assert rest[k] in s[1..];
        }
      }
      assert s == [s[0]] + s[1..];
    }
  }

  /** Sorted, duplicates removed: the distinct values, strictly increasing. */
  function Compressed(values: seq<int>): (xs: seq<int>)
  {
    Dedup(SortBy(values, v => v))
  }

  lemma CompressedProperties(values: seq<int>)
    ensures StrictlyIncreasing(Compressed(values))
    ensures forall v :: v in Compressed(values) <==> v in values
  {
    var sorted := SortBy(values, v => v);
    SortSorted(values, v => v);
    assert Ascending(sorted);
    DedupAscending(sorted);
    forall v
      ensures v in sorted <==> v in values
    {
      assert v in sorted <==> v in multiset(sorted);
    }
  }
}
