/**
 * The promise of Go's sorting functions: some ordered permutation of the input. Insertion sort
 * stands in for the library's algorithm; everything else rests on the promise alone.
 */
module Sorting {

  ghost predicate Total<T(!new)>(leq: (T, T) -> bool) {
    && (forall a, b :: leq(a, b) || leq(b, a))
    && (forall a, b, c :: leq(a, b) && leq(b, c) ==> leq(a, c))
  }

  ghost predicate Antisymmetric<T(!new)>(leq: (T, T) -> bool, elements: multiset<T>) {
    forall a, b :: a in elements && b in elements && leq(a, b) && leq(b, a) ==> a == b
  }

  ghost predicate Ordered<T(!new)>(s: seq<T>, leq: (T, T) -> bool) {
    forall i, j :: 0 <= i < j < |s| ==> leq(s[i], s[j])
  }

  function Insert<T>(x: T, s: seq<T>, leq: (T, T) -> bool): seq<T> {
    if s == [] then [x]
    else if leq(x, s[0]) then [x] + s
    else [s[0]] + Insert(x, s[1..], leq)
  }

  function Sort<T>(s: seq<T>, leq: (T, T) -> bool): seq<T> {
    if s == [] then [] else Insert(s[0], Sort(s[1..], leq), leq)
  }

  lemma {:induction false} InsertPermutes<T(!new)>(x: T, s: seq<T>, leq: (T, T) -> bool)
    ensures multiset(Insert(x, s, leq)) == multiset{x} + multiset(s)
  {
    if s != [] && !leq(x, s[0]) {
      InsertPermutes(x, s[1..], leq);
      assert s == [s[0]] + s[1..];
      assert multiset(s) == multiset{s[0]} + multiset(s[1..]);
    }
  }

  lemma {:induction false} InsertOrders<T(!new)>(x: T, s: seq<T>, leq: (T, T) -> bool)
    requires Total(leq) && Ordered(s, leq)
    ensures Ordered(Insert(x, s, leq), leq)
  {
    if s != [] && !leq(x, s[0]) {
      InsertOrders(x, s[1..], leq);
      InsertPermutes(x, s[1..], leq);
      var r := Insert(x, s[1..], leq);
      forall j | 0 <= j < |r| ensures leq(s[0], r[j]) {
        assert r[j] in multiset(r);
        assert r[j] == x || r[j] in s[1..];
      }
    }
  }

  /** Sorting yields an ordered permutation. */
  lemma {:induction false} SortSorts<T(!new)>(s: seq<T>, leq: (T, T) -> bool)
    requires Total(leq)
    ensures Ordered(Sort(s, leq), leq) && multiset(Sort(s, leq)) == multiset(s)
  {
    if s != [] {
      SortSorts(s[1..], leq);
      InsertOrders(s[0], Sort(s[1..], leq), leq);
      InsertPermutes(s[0], Sort(s[1..], leq), leq);
      assert s == [s[0]] + s[1..];
    }
  }

  /** Ordered, head by head. */
  ghost predicate Ascends<T(!new)>(s: seq<T>, leq: (T, T) -> bool) {
    s == [] || (Below(s[0], multiset(s[1..]), leq) && Ascends(s[1..], leq))
  }

  ghost predicate Below<T(!new)>(x: T, rest: multiset<T>, leq: (T, T) -> bool) {
    forall y :: y in rest ==> leq(x, y)
  }

  lemma {:induction false} OrderedAscends<T(!new)>(s: seq<T>, leq: (T, T) -> bool)
    requires Ordered(s, leq)
    ensures Ascends(s, leq)
  {
    if s != [] {
      forall y | y in multiset(s[1..]) ensures leq(s[0], y) {
        var i :| 0 <= i < |s[1..]| && s[1..][i] == y;
        assert s[i + 1] == y;
      }
      OrderedAscends(s[1..], leq);
    }
  }

  lemma TailsAgree<T(!new)>(a: seq<T>, b: seq<T>)
    requires multiset(a) == multiset(b) && a != [] && b != [] && a[0] == b[0]
    ensures multiset(a[1..]) == multiset(b[1..])
  {
    assert a == [a[0]] + a[1..] && b == [b[0]] + b[1..];
    assert multiset(a[1..]) == multiset(a) - multiset{a[0]};
    assert multiset(b[1..]) == multiset(b) - multiset{b[0]};
  }

  lemma TailIncluded<T(!new)>(a: seq<T>)
    requires a != []
    ensures multiset(a[1..]) <= multiset(a)
  {
    assert a == [a[0]] + a[1..];
  }

  lemma HeadsAgree<T(!new)>(x: T, a: multiset<T>, y: T, b: multiset<T>, leq: (T, T) -> bool)
    requires Below(x, a, leq) && Below(y, b, leq) && multiset{x} + a == multiset{y} + b
    requires Antisymmetric(leq, multiset{x} + a)
    ensures x == y
  {
    assert x in multiset{y} + b && y in multiset{x} + a;
    assert x == y || (x in b && y in a);
  }

  lemma HeadAndTail<T(!new)>(s: seq<T>)
    requires s != []
    ensures multiset(s) == multiset{s[0]} + multiset(s[1..])
  {
    assert s == [s[0]] + s[1..];
  }

  lemma {:induction false} AscendingUnique<T(!new)>(a: seq<T>, b: seq<T>, leq: (T, T) -> bool)
    requires Ascends(a, leq) && Ascends(b, leq) && multiset(a) == multiset(b)
    requires Antisymmetric(leq, multiset(a))
    ensures a == b
  {
    assert |multiset(a)| == |a| && |multiset(b)| == |b|;
    if a != [] {
      HeadAndTail(a);
      HeadAndTail(b);
      HeadsAgree(a[0], multiset(a[1..]), b[0], multiset(b[1..]), leq);
      TailsAgree(a, b);
      TailIncluded(a);
      AscendingUnique(a[1..], b[1..], leq);
      assert a == [a[0]] + a[1..] && b == [b[0]] + b[1..];
    }
  }

  /** Where the order tells all elements apart there is only one ordered permutation. */
  lemma OrderedPermutationUnique<T(!new)>(a: seq<T>, b: seq<T>, leq: (T, T) -> bool)
    requires Ordered(a, leq) && Ordered(b, leq) && multiset(a) == multiset(b)
    requires Antisymmetric(leq, multiset(a))
    ensures a == b
  {
    OrderedAscends(a, leq);
    OrderedAscends(b, leq);
    AscendingUnique(a, b, leq);
  }

  /** So the result of sorting does not depend on the order of the input. */
  lemma SortIgnoresOrder<T(!new)>(a: seq<T>, b: seq<T>, leq: (T, T) -> bool)
    requires Total(leq) && multiset(a) == multiset(b) && Antisymmetric(leq, multiset(a))
    ensures Sort(a, leq) == Sort(b, leq)
  {
    SortSorts(a, leq);
    SortSorts(b, leq);
    OrderedPermutationUnique(Sort(a, leq), Sort(b, leq), leq);
  }

  // ----- sequences without repetition

  ghost predicate Distinct<T(!new)>(s: seq<T>) {
    forall i, j :: 0 <= i < j < |s| ==> s[i] != s[j]
  }

  lemma LastCounts<T(!new)>(s: seq<T>, x: T)
    requires s != []
    ensures multiset(s)[x] == multiset(s[..|s| - 1])[x] + if x == s[|s| - 1] then 1 else 0
    ensures multiset(s[..|s| - 1])[x] > 0 <==> x in s[..|s| - 1]
  {
    assert s == s[..|s| - 1] + [s[|s| - 1]];
  }

  lemma LastDistinct<T(!new)>(s: seq<T>)
    requires s != []
    ensures Distinct(s) <==> Distinct(s[..|s| - 1]) && s[|s| - 1] !in s[..|s| - 1]
  {
    var last := |s| - 1;
    assert forall i :: 0 <= i < last ==> s[..last][i] == s[i] && s[i] in s[..last];
  }

  lemma {:induction false} DistinctMultiplicity<T(!new)>(s: seq<T>)
    ensures Distinct(s) <==> forall x :: multiset(s)[x] <= 1
  {
    if s != [] {
      var front, last := s[..|s| - 1], s[|s| - 1];
      LastDistinct(s);
      DistinctMultiplicity(front);
      forall x ensures multiset(s)[x] == multiset(front)[x] + if x == last then 1 else 0 {
        LastCounts(s, x);
      }
      LastCounts(s, last);
    }
  }

  lemma DistinctCount<T(!new)>(s: seq<T>, x: T)
    requires Distinct(s)
    ensures multiset(s)[x] == if x in s then 1 else 0
  {
    DistinctMultiplicity(s);
    assert x in s <==> x in multiset(s);
  }

  lemma DistinctPermutation<T(!new)>(a: seq<T>, b: seq<T>)
    requires Distinct(a) && multiset(a) == multiset(b)
    ensures Distinct(b)
  {
    DistinctMultiplicity(a);
    DistinctMultiplicity(b);
  }

  lemma {:induction false} DistinctSetSize<T(!new)>(s: seq<T>)
    requires Distinct(s)
    ensures |set x | x in s| == |s|
  {
    if s == [] {
      assert (set x | x in s) == {};
    } else {
      var last := |s| - 1;
      assert s == s[..last] + [s[last]];
      DistinctSetSize(s[..last]);
      assert (set x | x in s) == (set x | x in s[..last]) + {s[last]};
    }
  }
}
