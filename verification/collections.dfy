/** Enumerable.Distinct over sequences, with the facts the tag list relies on. */
module Collections {

  predicate NoDuplicates<T(==)>(s: seq<T>) {
    forall i, j :: 0 <= i < j < |s| ==> s[i] != s[j]
  }

  /** a and b hold the same elements, whatever their order and repetitions. */
  predicate SameElements<T(==)>(a: seq<T>, b: seq<T>) {
    && (forall i :: 0 <= i < |a| ==> a[i] in b)
    && (forall i :: 0 <= i < |b| ==> b[i] in a)
  }

  /** The position of the first occurrence of x in s. */
  function FirstIndex<T(==)>(s: seq<T>, x: T): (i: nat)
    requires x in s
    ensures i < |s| && s[i] == x
    ensures forall j :: 0 <= j < i ==> s[j] != x
  {
    if s[0] == x then 0 else 1 + FirstIndex(s[1..], x)
  }

  /** Enumerable.Distinct: keeps the first occurrence of each element, in order. */
  function Distinct<T(==)>(s: seq<T>): (r: seq<T>)
    ensures NoDuplicates(r)
    ensures SameElements(r, s)
    ensures |r| <= |s|
    decreases |s|
  {
    if |s| == 0 then []
    else
      var d := Distinct(s[..|s| - 1]);
      var x := s[|s| - 1];
      assert forall i :: 0 <= i < |s| - 1 ==> s[i] == s[..|s| - 1][i];
      if x in d then d else d + [x]
  }

  lemma FirstIndexUnique<T>(s: seq<T>, x: T, i: nat)
    requires i < |s| && s[i] == x
    requires forall j :: 0 <= j < i ==> s[j] != x
    ensures FirstIndex(s, x) == i
  {
  }

  /** Every element of r occurs in s, and they come in the order of their
      first occurrence in s. */
  predicate InFirstOccurrenceOrder<T(==)>(r: seq<T>, s: seq<T>) {
    && (forall i :: 0 <= i < |r| ==> r[i] in s)
    && (forall i, j :: 0 <= i < j < |r| ==> FirstIndex(s, r[i]) < FirstIndex(s, r[j]))
  }

  /** An element of s's prefix first occurs in s where it first occurs in the prefix. */
  lemma FirstIndexInPrefix<T>(s: seq<T>, y: T)
    requires |s| > 0 && y in s[..|s| - 1]
    ensures FirstIndex(s, y) == FirstIndex(s[..|s| - 1], y)
  {
    FirstIndexUnique(s, y, FirstIndex(s[..|s| - 1], y));
  }

  /** The order of first occurrences in a prefix carries over to the whole. */
  lemma OrderCarriesOver<T>(d: seq<T>, s: seq<T>)
    requires |s| > 0 && InFirstOccurrenceOrder(d, s[..|s| - 1])
    ensures InFirstOccurrenceOrder(d, s)
  {
    forall i | 0 <= i < |d|
      ensures d[i] in s && FirstIndex(s, d[i]) == FirstIndex(s[..|s| - 1], d[i])
    {
      FirstIndexInPrefix(s, d[i]);
    }
  }

  /** Appending the last element of s, which occurs nowhere earlier, keeps the order. */
  lemma OrderExtends<T>(d: seq<T>, s: seq<T>)
    requires |s| > 0 && s[|s| - 1] !in s[..|s| - 1]
    requires InFirstOccurrenceOrder(d, s) && forall i :: 0 <= i < |d| ==> d[i] in s[..|s| - 1]
    ensures InFirstOccurrenceOrder(d + [s[|s| - 1]], s)
  {
    var x := s[|s| - 1];
    FirstIndexUnique(s, x, |s| - 1);
    var r := d + [x];
    forall i, j | 0 <= i < j < |r|
      ensures FirstIndex(s, r[i]) < FirstIndex(s, r[j])
    {
      assert r[i] == d[i];
      if j < |d| {
        assert r[j] == d[j];
      } else {
        FirstIndexInPrefix(s, d[i]);
      }
    }
  }

  /** Distinct lists the elements in the order of their first occurrence. */
  lemma {:induction false} DistinctKeepsFirstOccurrenceOrder<T>(s: seq<T>)
    ensures InFirstOccurrenceOrder(Distinct(s), s)
    decreases |s|
  {
    if |s| > 0 {
      var p := s[..|s| - 1];
      var d := Distinct(p);
      DistinctKeepsFirstOccurrenceOrder(p);
      OrderCarriesOver(d, s);
      if s[|s| - 1] !in p {
        OrderExtends(d, s);
      }
    }
  }

  /** A list without duplicates is its own Distinct. */
  lemma {:induction false} DistinctOfDistinctFree<T>(s: seq<T>)
    requires NoDuplicates(s)
    ensures Distinct(s) == s
    decreases |s|
  {
    if |s| > 0 {
      var p := s[..|s| - 1];
      DistinctOfDistinctFree(p);
      assert s[|s| - 1] !in p;
      assert p + [s[|s| - 1]] == s;
    }
  }

  /** Deduplicating twice gives the same list as deduplicating once. */
  lemma DistinctIdempotent<T>(s: seq<T>)
    ensures Distinct(Distinct(s)) == Distinct(s)
  {
    DistinctOfDistinctFree(Distinct(s));
  }
}
