/** A stable sort by a caller's order, and a counting fact about sequences without duplicates. */
module Sorting {
  ghost predicate TotalPreorder<T(!new)>(leq: (T, T) -> bool) {
    && (forall a, b :: leq(a, b) || leq(b, a))
    && (forall a, b, c :: leq(a, b) && leq(b, c) ==> leq(a, c))
  }

  ghost predicate Sorted<T>(leq: (T, T) -> bool, s: seq<T>) {
    forall i, j | 0 <= i < j < |s| :: leq(s[i], s[j])
  }

  ghost predicate Distinct<T>(s: seq<T>) {
    forall i, j | 0 <= i < j < |s| :: s[i] != s[j]
  }

  /** Puts `x` before the elements it must not follow. */
  function Insert<T>(leq: (T, T) -> bool, x: T, s: seq<T>): (r: seq<T>)
    ensures |r| == |s| + 1
  {
    if s == [] || leq(x, s[0]) then [x] + s else [s[0]] + Insert(leq, x, s[1..])
  }

  function SortBy<T>(leq: (T, T) -> bool, s: seq<T>): (r: seq<T>)
    ensures |r| == |s|
  {
    if s == [] then [] else Insert(leq, s[0], SortBy(leq, s[1..]))
  }

  lemma InsertContents<T>(leq: (T, T) -> bool, x: T, s: seq<T>)
    ensures multiset(Insert(leq, x, s)) == multiset{x} + multiset(s)
  {
    if s != [] && !leq(x, s[0]) {
      InsertContents(leq, x, s[1..]);
      assert s == [s[0]] + s[1..];
    }
  }

  lemma {:induction false} InsertSorted<T(!new)>(leq: (T, T) -> bool, x: T, s: seq<T>)
    requires TotalPreorder(leq) && Sorted(leq, s)
    ensures Sorted(leq, Insert(leq, x, s))
  {
    if s != [] && !leq(x, s[0]) {
      InsertSorted(leq, x, s[1..]);
      InsertContents(leq, x, s[1..]);
      var r := Insert(leq, x, s[1..]);
      forall j | 0 <= j < |r|
        ensures leq(s[0], r[j])
      {
        assert r[j] in multiset(r);
      }
    }
  }

  lemma {:induction false} SortByIsPermutation<T>(leq: (T, T) -> bool, s: seq<T>)
    ensures multiset(SortBy(leq, s)) == multiset(s)
  {
    if s != [] {
      SortByIsPermutation(leq, s[1..]);
      InsertContents(leq, s[0], SortBy(leq, s[1..]));
      assert s == [s[0]] + s[1..];
    }
  }

  lemma {:induction false} SortByIsSorted<T(!new)>(leq: (T, T) -> bool, s: seq<T>)
    requires TotalPreorder(leq)
    ensures Sorted(leq, SortBy(leq, s))
  {
    if s != [] {
      SortByIsSorted(leq, s[1..]);
      InsertSorted(leq, s[0], SortBy(leq, s[1..]));
    }
  }

  lemma SameElements<T>(a: seq<T>, b: seq<T>)
    requires multiset(a) == multiset(b)
    ensures forall x :: x in a <==> x in b
  {
    forall x
      ensures x in a <==> x in b
    {
      assert x in multiset(a) <==> x in a;
      assert x in multiset(b) <==> x in b;
    }
  }

  /** The pigeonhole principle. */
  lemma {:induction false} DistinctBound<T>(s: seq<T>, pool: set<T>)
    requires Distinct(s) && forall x <- s :: x in pool
    ensures |s| <= |pool|
  {
    if s != [] {
      var n := |s| - 1;
      DistinctBound(s[..n], pool - {s[n]});
    }
  }

  /** A rearrangement of a sequence without duplicates has none either. */
  lemma {:induction false} PermutationDistinct<T>(a: seq<T>, b: seq<T>)
    requires multiset(a) == multiset(b) && Distinct(b)
    ensures Distinct(a)
  {
    forall i, j | 0 <= i < j < |a|
      ensures a[i] != a[j]
    {
      if a[i] == a[j] {
        var x := a[i];
        assert a == a[..i] + [x] + a[i + 1..j] + [x] + a[j + 1..];
        assert multiset(a)[x] >= 2;
        DistinctMultiplicity(b, x);
      }
    }
  }

  lemma {:induction false} DistinctMultiplicity<T>(b: seq<T>, x: T)
    requires Distinct(b)
    ensures multiset(b)[x] <= 1
  {
    if b != [] {
      DistinctMultiplicity(b[1..], x);
      assert b == [b[0]] + b[1..];
    }
  }

  /** `order`, then what `s` adds to it. */
  function AddUnseen<T(==)>(order: seq<T>, s: seq<T>): seq<T>
    decreases |s|
  {
    if s == [] then order else AddUnseen(if s[0] in order then order else order + [s[0]], s[1..])
  }

  /** `s` with only the first occurrence of each element. */
  function FirstSeen<T(==)>(s: seq<T>): seq<T> {
    AddUnseen([], s)
  }

  lemma {:induction false} AddUnseenConcat<T>(order: seq<T>, a: seq<T>, b: seq<T>)
    ensures AddUnseen(order, a + b) == AddUnseen(AddUnseen(order, a), b)
    decreases |a|
  {
    if a == [] {
      assert a + b == b;
    } else {
      assert (a + b)[1..] == a[1..] + b;
      AddUnseenConcat(if a[0] in order then order else order + [a[0]], a[1..], b);
    }
  }

  lemma {:induction false} AddUnseenIsDistinct<T>(order: seq<T>, s: seq<T>)
    requires Distinct(order)
    ensures Distinct(AddUnseen(order, s)) && forall x :: x in AddUnseen(order, s) <==> x in order || x in s
    decreases |s|
  {
    if s != [] {
      assert s == [s[0]] + s[1..];
      AddUnseenIsDistinct(if s[0] in order then order else order + [s[0]], s[1..]);
    }
  }

  /** The order of first occurrence: an element not seen before goes to the end, another changes nothing. */
  lemma FirstSeenOrder<T>(s: seq<T>, x: T)
    ensures FirstSeen(s + [x]) == FirstSeen(s) + (if x in s then [] else [x])
  {
    AddUnseenConcat([], s, [x]);
    AddUnseenIsDistinct([], s);
    var order := FirstSeen(s);
    assert [x][1..] == [];
    assert AddUnseen(order, [x]) == if x in order then order else order + [x];
  }
}
