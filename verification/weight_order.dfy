/** Stable ordering by descending weight, the order in which a rule keeps its
    weighted constraints. `weight` reads an element's weight. The sort is an
    insertion sort: each element, taken in list order, is placed after every
    element already placed whose weight is at least its own. */
module WeightOrder {

  /** Non-increasing weight from front to back. */
  ghost predicate SortedDesc<T>(weight: T -> int, s: seq<T>) {
    forall i, j :: 0 <= i < j < |s| ==> weight(s[i]) >= weight(s[j])
  }

  /** The elements of weight `k`, in their order in `s`. */
  function OfWeight<T>(weight: T -> int, s: seq<T>, k: int): seq<T> {
    if s == [] then []
    else (if weight(s[0]) == k then [s[0]] else []) + OfWeight(weight, s[1..], k)
  }

  /** Stable sorting keeps, for every weight, the elements of that weight in
      their original relative order. */
  ghost predicate Stable<T>(weight: T -> int, input: seq<T>, output: seq<T>) {
    forall k :: OfWeight(weight, output, k) == OfWeight(weight, input, k)
  }

  /** Place `x` in front of the first element lighter than it. */
  function Insert<T>(weight: T -> int, x: T, s: seq<T>): seq<T> {
    if s == [] then [x]
    else if weight(s[0]) >= weight(x) then [s[0]] + Insert(weight, x, s[1..])
    else [x] + s
  }

  /** The stable descending-weight sort of `s`. */
  function StableSort<T>(weight: T -> int, s: seq<T>): seq<T> {
    if s == [] then []
    else Insert(weight, s[|s| - 1], StableSort(weight, s[..|s| - 1]))
  }

  lemma {:induction false} OfWeightAppend<T>(weight: T -> int, a: seq<T>, b: seq<T>, k: int)
    ensures OfWeight(weight, a + b, k) == OfWeight(weight, a, k) + OfWeight(weight, b, k)
  {
    if a == [] {
      assert a + b == b;
    } else {
      var ab := a + b;
      assert ab[0] == a[0] && ab[1..] == a[1..] + b;
      OfWeightAppend(weight, a[1..], b, k);
      assert OfWeight(weight, ab, k) == (if weight(a[0]) == k then [a[0]] else []) + OfWeight(weight, a[1..] + b, k);
    }
  }

  /** Insertion adds exactly `x`: it keeps every element and adds no other. */
  lemma {:induction false} InsertPermutes<T>(weight: T -> int, x: T, s: seq<T>)
    ensures multiset(Insert(weight, x, s)) == multiset(s) + multiset{x}
  {
    if s != [] && weight(s[0]) >= weight(x) {
      InsertPermutes(weight, x, s[1..]);
      assert s == [s[0]] + s[1..];
    }
  }

  /** The tail of a sorted list is sorted and no heavier than its head. */
  lemma SortedTail<T>(weight: T -> int, s: seq<T>)
    requires SortedDesc(weight, s) && s != []
    ensures SortedDesc(weight, s[1..])
    ensures forall i :: 0 <= i < |s[1..]| ==> weight(s[1..][i]) <= weight(s[0])
  {
    forall i, j | 0 <= i < j < |s[1..]|
      ensures weight(s[1..][i]) >= weight(s[1..][j])
    {
      assert s[1..][i] == s[i + 1] && s[1..][j] == s[j + 1];
    }
    forall i | 0 <= i < |s[1..]|
      ensures weight(s[1..][i]) <= weight(s[0])
    {
      assert s[1..][i] == s[i + 1];
    }
  }

  /** Insertion brings in no element heavier than `x` and those of `s`. */
  lemma {:induction false} InsertBounded<T>(weight: T -> int, x: T, s: seq<T>, m: int)
    requires forall i :: 0 <= i < |s| ==> weight(s[i]) <= m
    requires weight(x) <= m
    ensures forall i :: 0 <= i < |Insert(weight, x, s)| ==> weight(Insert(weight, x, s)[i]) <= m
  {
    if s != [] && weight(s[0]) >= weight(x) {
      InsertBounded(weight, x, s[1..], m);
      var rest := Insert(weight, x, s[1..]);
      assert Insert(weight, x, s) == [s[0]] + rest;
    }
  }

  /** Inserting into a sorted list keeps it sorted. */
  lemma {:induction false} InsertSorted<T>(weight: T -> int, x: T, s: seq<T>)
    requires SortedDesc(weight, s)
    ensures SortedDesc(weight, Insert(weight, x, s))
  {
    var r := Insert(weight, x, s);
    if s == [] {
    } else if weight(s[0]) >= weight(x) {
      var rest := Insert(weight, x, s[1..]);
      SortedTail(weight, s);
      InsertSorted(weight, x, s[1..]);
      InsertBounded(weight, x, s[1..], weight(s[0]));
      assert r == [s[0]] + rest;
      forall i, j | 0 <= i < j < |r|
        ensures weight(r[i]) >= weight(r[j])
      {
        assert r[j] == rest[j - 1];
        if i > 0 {
          assert r[i] == rest[i - 1];
        }
      }
    } else {
      assert r == [x] + s;
      forall i, j | 0 <= i < j < |r|
        ensures weight(r[i]) >= weight(r[j])
      {
        assert r[j] == s[j - 1];
        assert weight(s[j - 1]) <= weight(s[0]);
        if i > 0 {
          assert r[i] == s[i - 1];
        }
      }
    }
  }

  /** Inserting into a sorted list puts `x` after every element of its own
      weight, so for every weight the order is that of appending `x`. */
  lemma {:induction false} InsertStable<T>(weight: T -> int, x: T, s: seq<T>, k: int)
    requires SortedDesc(weight, s)
    ensures OfWeight(weight, Insert(weight, x, s), k) == OfWeight(weight, s + [x], k)
  {
    if s == [] {
      assert s + [x] == [x];
    } else if weight(s[0]) >= weight(x) {
      InsertStable(weight, x, s[1..], k);
      assert (s + [x])[1..] == s[1..] + [x];
    } else {
      OfWeightAppend(weight, s, [x], k);
      OfWeightAppend(weight, [x], s, k);
      if weight(x) == k {
        NoneOfWeight(weight, s, k);
      }
    }
  }

  /** A sorted list whose head is lighter than `k` holds nothing of weight `k`. */
  lemma {:induction false} NoneOfWeight<T>(weight: T -> int, s: seq<T>, k: int)
    requires SortedDesc(weight, s) && s != [] && weight(s[0]) < k
    ensures OfWeight(weight, s, k) == []
  {
    if |s| > 1 {
      assert weight(s[1]) <= weight(s[0]);
      NoneOfWeight(weight, s[1..], k);
    }
  }

  /** The sort yields a descending arrangement of the same elements. */
  lemma {:induction false} SortSortsAndPermutes<T>(weight: T -> int, s: seq<T>)
    ensures SortedDesc(weight, StableSort(weight, s))
    ensures multiset(StableSort(weight, s)) == multiset(s)
  {
    if s != [] {
      var init, last := s[..|s| - 1], s[|s| - 1];
      SortSortsAndPermutes(weight, init);
      InsertSorted(weight, last, StableSort(weight, init));
      InsertPermutes(weight, last, StableSort(weight, init));
      assert s == init + [last];
    }
  }

  /** The sort is stable: equal-weight elements keep their relative order. */
  lemma {:induction false} SortIsStable<T>(weight: T -> int, s: seq<T>)
    ensures Stable(weight, s, StableSort(weight, s))
  {
    if s != [] {
      var init, last := s[..|s| - 1], s[|s| - 1];
      SortIsStable(weight, init);
      SortSortsAndPermutes(weight, init);
      assert s == init + [last];
      forall k
        ensures OfWeight(weight, StableSort(weight, s), k) == OfWeight(weight, s, k)
      {
        var sorted := StableSort(weight, init);
        InsertStable(weight, last, sorted, k);
        OfWeightAppend(weight, sorted, [last], k);
        OfWeightAppend(weight, init, [last], k);
      }
    }
  }

  /** A sorted, stable arrangement is unique: any two sorted lists that agree
      on the elements of every weight, in order, are equal. So the sort's
      result does not depend on the sorting algorithm, only on stability. */
  lemma {:induction false} SortedStableUnique<T>(weight: T -> int, a: seq<T>, b: seq<T>)
    requires SortedDesc(weight, a) && SortedDesc(weight, b)
    requires forall k :: OfWeight(weight, a, k) == OfWeight(weight, b, k)
    ensures a == b
  {
    if a == [] || b == [] {
      if a != [] {
        ghost var own := OfWeight(weight, a, weight(a[0]));
        assert false;
      } else if b != [] {
        ghost var own := OfWeight(weight, b, weight(b[0]));
        assert false;
      }
    } else {
      var wa, wb := weight(a[0]), weight(b[0]);
      if wa > wb {
        assert OfWeight(weight, a, wa) != [];
        NoneOfWeight(weight, b, wa);
        assert false;
      } else if wb > wa {
        assert OfWeight(weight, b, wb) != [];
        NoneOfWeight(weight, a, wb);
        assert false;
      }
      assert OfWeight(weight, a, wa)[0] == a[0];
      assert OfWeight(weight, b, wa)[0] == b[0];
      assert a[0] == b[0];
      forall k
        ensures OfWeight(weight, a[1..], k) == OfWeight(weight, b[1..], k)
      {
        var ha := if wa == k then [a[0]] else [];
        assert OfWeight(weight, a, k) == ha + OfWeight(weight, a[1..], k);
        assert OfWeight(weight, b, k) == ha + OfWeight(weight, b[1..], k);
        assert (ha + OfWeight(weight, a[1..], k))[|ha|..] == OfWeight(weight, a[1..], k);
        assert (ha + OfWeight(weight, b[1..], k))[|ha|..] == OfWeight(weight, b[1..], k);
      }
      SortedStableUnique(weight, a[1..], b[1..]);
      assert a == [a[0]] + a[1..] && b == [b[0]] + b[1..];
    }
  }

  /** Sorting a list that is already sorted changes nothing. */
  lemma SortKeepsSorted<T>(weight: T -> int, s: seq<T>)
    requires SortedDesc(weight, s)
    ensures StableSort(weight, s) == s
  {
    SortSortsAndPermutes(weight, s);
    SortIsStable(weight, s);
    SortedStableUnique(weight, StableSort(weight, s), s);
  }

  /** Appending to a sorted list and re-sorting is inserting. */
  lemma AppendThenSortIsInsert<T>(weight: T -> int, s: seq<T>, x: T)
    requires SortedDesc(weight, s)
    ensures StableSort(weight, s + [x]) == Insert(weight, x, s)
  {
    assert (s + [x])[..|s|] == s;
    SortKeepsSorted(weight, s);
  }

  /** How many leading elements insertion passes over. */
  function InsertPos<T>(weight: T -> int, x: T, s: seq<T>): (p: nat)
    ensures p <= |s|
  {
    if s == [] || weight(s[0]) < weight(x) then 0 else 1 + InsertPos(weight, x, s[1..])
  }

  lemma {:induction false} InsertAt<T>(weight: T -> int, x: T, s: seq<T>)
    ensures Insert(weight, x, s) == s[..InsertPos(weight, x, s)] + [x] + s[InsertPos(weight, x, s)..]
  {
    if s == [] || weight(s[0]) < weight(x) {
      assert s[..0] == [] && s[0..] == s;
    } else {
      var q := InsertPos(weight, x, s[1..]);
      InsertAt(weight, x, s[1..]);
      assert s[..q + 1] == [s[0]] + s[1..][..q];
      assert s[q + 1..] == s[1..][q..];
    }
  }

  lemma {:induction false} InsertPosHeavier<T>(weight: T -> int, x: T, s: seq<T>)
    ensures forall i :: 0 <= i < InsertPos(weight, x, s) ==> weight(s[i]) >= weight(x)
  {
    if s != [] && weight(s[0]) >= weight(x) {
      InsertPosHeavier(weight, x, s[1..]);
      forall i | 0 < i < InsertPos(weight, x, s)
        ensures weight(s[i]) >= weight(x)
      {
        assert s[i] == s[1..][i - 1];
      }
    }
  }

  lemma {:induction false} InsertPosLighter<T>(weight: T -> int, x: T, s: seq<T>)
    requires SortedDesc(weight, s)
    ensures forall i :: InsertPos(weight, x, s) <= i < |s| ==> weight(s[i]) < weight(x)
  {
    if s != [] {
      SortedTail(weight, s);
      if weight(s[0]) >= weight(x) {
        InsertPosLighter(weight, x, s[1..]);
        forall i | InsertPos(weight, x, s) <= i < |s|
          ensures weight(s[i]) < weight(x)
        {
          assert s[i] == s[1..][i - 1];
        }
      } else {
        forall i | 0 < i < |s|
          ensures weight(s[i]) < weight(x)
        {
          assert s[i] == s[1..][i - 1];
        }
      }
    }
  }

  /** Where insertion puts `x` in a sorted list: after exactly the elements
      whose weight is at least its own, the rest following unchanged. */
  lemma InsertSplit<T>(weight: T -> int, x: T, s: seq<T>) returns (p: nat)
    requires SortedDesc(weight, s)
    ensures p <= |s| && Insert(weight, x, s) == s[..p] + [x] + s[p..]
    ensures forall i :: 0 <= i < p ==> weight(s[i]) >= weight(x)
    ensures forall i :: p <= i < |s| ==> weight(s[i]) < weight(x)
  {
    p := InsertPos(weight, x, s);
    InsertAt(weight, x, s);
    InsertPosHeavier(weight, x, s);
    InsertPosLighter(weight, x, s);
  }
}
