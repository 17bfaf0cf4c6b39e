/**
 * The slice operations the core calls: `sort_unstable` / `sort_unstable_by`
 * (an insertion sort by an integer key stands in for them; only sortedness and
 * being a permutation are relied on) and `Vec::dedup`.
 */
module Sorting {

  predicate SortedBy<T>(s: seq<T>, key: T -> int) {
    forall i, j :: 0 <= i < j < |s| ==> key(s[i]) <= key(s[j])
  }

  predicate Distinct<T(==)>(s: seq<T>) {
    forall i, j :: 0 <= i < j < |s| ==> s[i] != s[j]
  }

  function Insert<T>(x: T, s: seq<T>, key: T -> int): seq<T> {
    if s == [] || key(x) <= key(s[0]) then [x] + s else [s[0]] + Insert(x, s[1..], key)
  }

  function InsertionSort<T>(s: seq<T>, key: T -> int): seq<T> {
    if s == [] then [] else Insert(s[0], InsertionSort(s[1..], key), key)
  }

  lemma {:induction false} InsertCorrect<T>(x: T, s: seq<T>, key: T -> int)
    requires SortedBy(s, key)
    ensures multiset(Insert(x, s, key)) == multiset(s) + multiset{x}
    ensures SortedBy(Insert(x, s, key), key)
    ensures |Insert(x, s, key)| > 0
    ensures Insert(x, s, key)[0] == x || (s != [] && Insert(x, s, key)[0] == s[0])
  {
    if s == [] || key(x) <= key(s[0]) {
    } else {
      var t := Insert(x, s[1..], key);
      InsertCorrect(x, s[1..], key);
      assert s == [s[0]] + s[1..];
      assert t[0] == x || t[0] == s[1];
      assert multiset([s[0]] + t) == multiset{s[0]} + multiset(t);
    }
  }

  lemma {:induction false} InsertionSortCorrect<T>(s: seq<T>, key: T -> int)
    ensures multiset(InsertionSort(s, key)) == multiset(s)
    ensures SortedBy(InsertionSort(s, key), key)
  {
    if s != [] {
      InsertionSortCorrect(s[1..], key);
      InsertCorrect(s[0], InsertionSort(s[1..], key), key);
      assert s == [s[0]] + s[1..];
    }
  }

  lemma {:induction false} InsertionSortDistinct<T>(s: seq<T>, key: T -> int)
    requires Distinct(s)
    ensures Distinct(InsertionSort(s, key))
  {
    if s != [] {
      var rest := InsertionSort(s[1..], key);
      InsertionSortDistinct(s[1..], key);
      InsertionSortCorrect(s[1..], key);
      assert s[0] !in multiset(s[1..]);
      InsertDistinct(s[0], rest, key);
    }
  }

  lemma {:induction false} InsertDistinct<T>(x: T, s: seq<T>, key: T -> int)
    requires Distinct(s) && x !in s
    ensures Distinct(Insert(x, s, key))
  {
    if s == [] || key(x) <= key(s[0]) {
    } else {
      var t := Insert(x, s[1..], key);
      InsertDistinct(x, s[1..], key);
      InsertMembers(x, s[1..], key);
      assert s[0] !in s[1..];
      assert s[0] !in t;
    }
  }

  lemma {:induction false} InsertMembers<T>(x: T, s: seq<T>, key: T -> int)
    ensures forall y :: y in Insert(x, s, key) <==> y == x || y in s
  {
    if !(s == [] || key(x) <= key(s[0])) {
      InsertMembers(x, s[1..], key);
      assert s == [s[0]] + s[1..];
    }
  }

  /** Vec::dedup: drops every element equal to the one before it. */
  function Dedup<T(==)>(s: seq<T>): seq<T> {
    if |s| <= 1 then s
    else if s[0] == s[1] then Dedup(s[1..])
    else [s[0]] + Dedup(s[1..])
  }

  lemma {:induction false} DedupCorrect<T>(s: seq<T>, key: T -> int)
    requires SortedBy(s, key)
    ensures forall y :: y in Dedup(s) <==> y in s
    ensures SortedBy(Dedup(s), key)
    ensures forall i :: 0 <= i < |Dedup(s)| - 1 ==> Dedup(s)[i] != Dedup(s)[i + 1]
    ensures s != [] ==> Dedup(s) != [] && Dedup(s)[0] == s[0]
    ensures s != [] ==> forall i :: 0 <= i < |Dedup(s)| ==> key(s[0]) <= key(Dedup(s)[i])
  {
    if |s| > 1 {
      DedupCorrect(s[1..], key);
      assert s == [s[0]] + s[1..];
      var d := Dedup(s[1..]);
      if s[0] != s[1] {
        assert ([s[0]] + d)[1..] == d;
        forall i, j | 0 <= i < j < |[s[0]] + d|
          ensures key(([s[0]] + d)[i]) <= key(([s[0]] + d)[j])
        {
          if i == 0 {
            assert ([s[0]] + d)[j] == d[j - 1];
            assert key(s[1]) <= key(d[j - 1]);
          }
        }
      }
    }
  }
}
