/** The library sorts the client calls (`Collections.sort` on the roster,
    `Arrays.sort` on a decoded player array) are stable sorts driven by a
    three-way comparator. For a comparator that is a total preorder every
    stable sort produces the same sequence, so a stable insertion sort
    stands for both. */
module Sorting {

  /** Insert `x` before the first element that is strictly greater than it,
      that is after every element it does not precede. */
  function Insert<T>(x: T, s: seq<T>, cmp: (T, T) -> int): (r: seq<T>)
    ensures |r| == |s| + 1
    ensures multiset(r) == multiset(s) + multiset{x}
  {
    if s == [] then [x]
    else if cmp(x, s[0]) < 0 then [x] + s
    else
      assert s == [s[0]] + s[1..];
      [s[0]] + Insert(x, s[1..], cmp)
  }

  /** Stable insertion sort: elements are taken in input order and each is
      placed after the elements already placed that compare equal to it. */
  function InsertionSort<T>(s: seq<T>, cmp: (T, T) -> int): (r: seq<T>)
    ensures |r| == |s|
    ensures multiset(r) == multiset(s)
  {
    if s == [] then []
    else
      assert s == s[..|s| - 1] + [s[|s| - 1]];
      Insert(s[|s| - 1], InsertionSort(s[..|s| - 1], cmp), cmp)
  }

  /** A comparator's sign flips when its arguments are swapped. */
  ghost predicate Antisymmetric<T(!new)>(cmp: (T, T) -> int)
  {
    forall a, b :: cmp(a, b) >= 0 <==> cmp(b, a) <= 0
  }

  /** "Precedes or ties with" is transitive. */
  ghost predicate Transitive<T(!new)>(cmp: (T, T) -> int)
  {
    forall a, b, c :: cmp(a, b) <= 0 && cmp(b, c) <= 0 ==> cmp(a, c) <= 0
  }

  ghost predicate AdjacentSorted<T>(s: seq<T>, cmp: (T, T) -> int)
  {
    forall i :: 0 <= i < |s| - 1 ==> cmp(s[i], s[i + 1]) <= 0
  }

  ghost predicate Sorted<T>(s: seq<T>, cmp: (T, T) -> int)
  {
    forall i, j :: 0 <= i < j < |s| ==> cmp(s[i], s[j]) <= 0
  }

  lemma {:induction false} InsertKeepsOrder<T(!new)>(x: T, s: seq<T>, cmp: (T, T) -> int)
    requires Antisymmetric(cmp) && AdjacentSorted(s, cmp)
    ensures AdjacentSorted(Insert(x, s, cmp), cmp)
    ensures s != [] ==> Insert(x, s, cmp)[0] in {x, s[0]}
  {
    if s != [] && cmp(x, s[0]) >= 0 {
      var rest := Insert(x, s[1..], cmp);
      InsertKeepsOrder(x, s[1..], cmp);
      assert cmp(s[0], x) <= 0;
      var r := [s[0]] + rest;
      forall i | 0 <= i < |r| - 1
        ensures cmp(r[i], r[i + 1]) <= 0
      {
        if i > 0 {
          assert r[i] == rest[i - 1] && r[i + 1] == rest[i];
        }
      }
    }
  }

  /** With an antisymmetric comparator the result is ordered pair by pair. */
  lemma {:induction false} SortIsAdjacentSorted<T(!new)>(s: seq<T>, cmp: (T, T) -> int)
    requires Antisymmetric(cmp)
    ensures AdjacentSorted(InsertionSort(s, cmp), cmp)
    decreases |s|
  {
    if s != [] {
      SortIsAdjacentSorted(s[..|s| - 1], cmp);
      InsertKeepsOrder(s[|s| - 1], InsertionSort(s[..|s| - 1], cmp), cmp);
    }
  }

  lemma {:induction false} AdjacentToSorted<T(!new)>(s: seq<T>, cmp: (T, T) -> int)
    requires Transitive(cmp) && AdjacentSorted(s, cmp)
    ensures Sorted(s, cmp)
    decreases |s|
  {
    if |s| > 1 {
      var t := s[..|s| - 1];
      assert AdjacentSorted(t, cmp) by {
        forall i | 0 <= i < |t| - 1 ensures cmp(t[i], t[i + 1]) <= 0 {
          assert t[i] == s[i] && t[i + 1] == s[i + 1];
        }
      }
      AdjacentToSorted(t, cmp);
      forall i, j | 0 <= i < j < |s|
        ensures cmp(s[i], s[j]) <= 0
      {
        if j < |s| - 1 {
          assert s[i] == t[i] && s[j] == t[j];
        } else if i < j - 1 {
          assert s[i] == t[i] && s[j - 1] == t[j - 1];
          assert cmp(s[i], s[j - 1]) <= 0;
        }
      }
    }
  }

  /** For a total preorder the sort output is sorted and a permutation of
      the input. */
  lemma SortIsSorted<T(!new)>(s: seq<T>, cmp: (T, T) -> int)
    requires Antisymmetric(cmp) && Transitive(cmp)
    ensures Sorted(InsertionSort(s, cmp), cmp)
    ensures multiset(InsertionSort(s, cmp)) == multiset(s)
  {
    SortIsAdjacentSorted(s, cmp);
    AdjacentToSorted(InsertionSort(s, cmp), cmp);
  }

  /** An element that nothing in `s` follows goes to the end. */
  lemma {:induction false} InsertLast<T>(x: T, s: seq<T>, cmp: (T, T) -> int)
    requires forall i :: 0 <= i < |s| ==> cmp(x, s[i]) >= 0
    ensures Insert(x, s, cmp) == s + [x]
  {
    if s != [] {
      InsertLast(x, s[1..], cmp);
      assert [s[0]] + (s[1..] + [x]) == s + [x];
    }
  }

  /** A sequence that is already in order comes back unchanged. */
  lemma {:induction false} SortOfSorted<T(!new)>(s: seq<T>, cmp: (T, T) -> int)
    requires Antisymmetric(cmp) && Sorted(s, cmp)
    ensures InsertionSort(s, cmp) == s
    decreases |s|
  {
    if s != [] {
      var init, last := s[..|s| - 1], s[|s| - 1];
      assert Sorted(init, cmp) by {
        forall i, j | 0 <= i < j < |init| ensures cmp(init[i], init[j]) <= 0 {
          assert init[i] == s[i] && init[j] == s[j];
        }
      }
      SortOfSorted(init, cmp);
      forall i | 0 <= i < |init| ensures cmp(last, init[i]) >= 0 {
        assert cmp(s[i], s[|s| - 1]) <= 0;
      }
      InsertLast(last, init, cmp);
      assert init + [last] == s;
    }
  }
}
