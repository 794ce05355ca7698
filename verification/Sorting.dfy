/** The library sort as the cache uses it: some rearrangement in ascending order of
    a key.  The order among equal keys is left open. */
module Sorting {

  ghost predicate SortedBy<T(!new)>(key: T -> int, s: seq<T>) {
    forall i, j | 0 <= i < j < |s| :: key(s[i]) <= key(s[j])
  }

  function Insert<T>(key: T -> int, s: seq<T>, x: T): seq<T> {
    if s == [] || key(s[|s| - 1]) <= key(x) then s + [x]
    else Insert(key, s[..|s| - 1], x) + [s[|s| - 1]]
  }

  lemma {:induction false} InsertKeepsElements<T(!new)>(key: T -> int, s: seq<T>, x: T)
    ensures multiset(Insert(key, s, x)) == multiset(s) + multiset{x}
  {
    if s != [] && key(x) < key(s[|s| - 1]) {
      InsertKeepsElements(key, s[..|s| - 1], x);
      assert s == s[..|s| - 1] + [s[|s| - 1]];
    }
  }

  lemma {:induction false} InsertSorts<T(!new)>(key: T -> int, s: seq<T>, x: T)
    requires SortedBy(key, s)
    ensures SortedBy(key, Insert(key, s, x))
  {
    if s != [] && key(x) < key(s[|s| - 1]) {
      var front, last := s[..|s| - 1], s[|s| - 1];
      InsertSorts(key, front, x);
      InsertKeepsElements(key, front, x);
      forall y | y in Insert(key, front, x)
        ensures key(y) <= key(last)
      {
        assert y in multiset(Insert(key, front, x));
        assert y in front || y == x;
      }
    }
  }

  method Sort<T(!new)>(key: T -> int, s: seq<T>) returns (sorted: seq<T>)
    ensures SortedBy(key, sorted)
    ensures multiset(sorted) == multiset(s)
  {
    sorted := [];
    for n := 0 to |s|
      invariant SortedBy(key, sorted)
      invariant multiset(sorted) == multiset(s[..n])
    {
      InsertSorts(key, sorted, s[n]);
      InsertKeepsElements(key, sorted, s[n]);
      assert s[..n + 1] == s[..n] + [s[n]];
      sorted := Insert(key, sorted, s[n]);
    }
    assert s == s[..|s|];
  }

  lemma SameElements<T(!new)>(a: seq<T>, b: seq<T>)
    requires multiset(a) == multiset(b)
    ensures |a| == |b|
    ensures forall x :: x in a <==> x in b
  {
    assert |a| == |multiset(a)| && |b| == |multiset(b)|;
    forall x
      ensures x in a <==> x in b
    {
      assert x in a <==> x in multiset(a);
    }
  }
}
