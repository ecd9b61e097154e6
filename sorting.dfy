/** The orderings the services sort by. Every comparator in the backend is
    "one field, then another", each ascending or reversed; a comparator is
    modelled as a key of two integers compared lexicographically, a reversed
    field contributing its negation. */
module Sorting {

  datatype Key = Key(major: int, minor: int)

  /** `Comparator.comparing(major).thenComparing(minor)`: `a` may precede `b`. */
  predicate KeyLe(a: Key, b: Key) {
    a.major < b.major || (a.major == b.major && a.minor <= b.minor)
  }

  /** Each element's key is at most the next one's. */
  predicate SortedBy<T>(s: seq<T>, key: T -> Key) {
    forall i :: 0 < i < |s| ==> KeyLe(key(s[i - 1]), key(s[i]))
  }

  /** Sorted neighbours give a sorted sequence: any earlier element's key is
      at most any later one's. */
  lemma {:induction false} SortedPairwise<T>(s: seq<T>, key: T -> Key, i: int, j: int)
    requires SortedBy(s, key) && 0 <= i <= j < |s|
    ensures KeyLe(key(s[i]), key(s[j]))
    decreases j - i
  {
    if i < j {
      SortedPairwise(s, key, i, j - 1);
      assert KeyLe(key(s[j - 1]), key(s[j]));
    }
  }

  /** Dropping the last element keeps a sequence sorted. */
  lemma SortedInit<T>(s: seq<T>, key: T -> Key)
    requires SortedBy(s, key) && s != []
    ensures SortedBy(s[..|s| - 1], key)
  {
    var init := s[..|s| - 1];
    forall i | 0 < i < |init| ensures KeyLe(key(init[i - 1]), key(init[i])) {
      assert init[i - 1] == s[i - 1] && init[i] == s[i];
    }
  }

  /** Appending an element no smaller than the last keeps a sequence
      sorted. */
  lemma SortedSnoc<T>(s: seq<T>, x: T, key: T -> Key)
    requires SortedBy(s, key) && (s != [] ==> KeyLe(key(s[|s| - 1]), key(x)))
    ensures SortedBy(s + [x], key)
  {
    var r := s + [x];
    forall i | 0 < i < |r| ensures KeyLe(key(r[i - 1]), key(r[i])) {
      assert r[i - 1] == s[i - 1];
      if i < |s| {
        assert r[i] == s[i];
      }
    }
  }

  /** Inserts `x` into a sequence, after the trailing elements whose key is
      not greater than its own. */
  function Insert<T>(s: seq<T>, x: T, key: T -> Key): (r: seq<T>)
    ensures multiset(r) == multiset(s) + multiset{x}
    ensures |r| == |s| + 1
    ensures r[|r| - 1] == x || (s != [] && r[|r| - 1] == s[|s| - 1])
  {
    if s == [] || KeyLe(key(s[|s| - 1]), key(x)) then s + [x]
    else
      assert s == s[..|s| - 1] + [s[|s| - 1]];
      Insert(s[..|s| - 1], x, key) + [s[|s| - 1]]
  }

  /** Inserting into a sorted sequence keeps it sorted. */
  lemma {:induction false} InsertSorted<T>(s: seq<T>, x: T, key: T -> Key)
    requires SortedBy(s, key)
    ensures SortedBy(Insert(s, x, key), key)
  {
    if s == [] || KeyLe(key(s[|s| - 1]), key(x)) {
      SortedSnoc(s, x, key);
    } else {
      var init := s[..|s| - 1];
      var last := s[|s| - 1];
      SortedInit(s, key);
      InsertSorted(init, x, key);
      var front := Insert(init, x, key);
      assert init != [] ==> KeyLe(key(init[|init| - 1]), key(last));
      SortedSnoc(front, last, key);
    }
  }

  /** Stream `.sorted(comparator)` and `ORDER BY`: an insertion sort. */
  function Sort<T>(s: seq<T>, key: T -> Key): (r: seq<T>)
    ensures SortedBy(r, key)
    ensures multiset(r) == multiset(s)
    ensures |r| == |s|
  {
    if s == [] then []
    else
      assert s == s[..|s| - 1] + [s[|s| - 1]];
      InsertSorted(Sort(s[..|s| - 1], key), s[|s| - 1], key);
      Insert(Sort(s[..|s| - 1], key), s[|s| - 1], key)
  }

  /** `List.sort(comparator)`: the list's own storage ends up holding its
      elements in comparator order. */
  method SortInPlace<T>(a: array<T>, key: T -> Key)
    modifies a
    ensures SortedBy(a[..], key)
    ensures multiset(a[..]) == multiset(old(a[..]))
  {
    var sorted := Sort(a[..], key);
    var i := 0;
    while i < a.Length
      invariant 0 <= i <= a.Length
      invariant forall j :: 0 <= j < i ==> a[j] == sorted[j]
    {
      a[i] := sorted[i];
      i := i + 1;
    }
    assert a[..] == sorted;
  }
}
