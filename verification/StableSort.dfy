/** Stable sorting by a total preorder, and how it treats removed elements. */
module StableSort {

  ghost predicate TotalPreorder<T(!new)>(leq: (T, T) -> bool) {
    && (forall x, y :: leq(x, y) || leq(y, x))
    && (forall x, y, z :: leq(x, y) && leq(y, z) ==> leq(x, z))
  }

  // Put x in front of the first element that is not below it.
  function Insert<T>(x: T, ys: seq<T>, leq: (T, T) -> bool): seq<T> {
    if ys == [] then [x]
    else if leq(x, ys[0]) then [x] + ys
    else [ys[0]] + Insert(x, ys[1..], leq)
  }

  function Sort<T>(xs: seq<T>, leq: (T, T) -> bool): seq<T> {
    if xs == [] then [] else Insert(xs[0], Sort(xs[1..], leq), leq)
  }

  ghost predicate Sorted<T>(xs: seq<T>, leq: (T, T) -> bool) {
    forall i, j | 0 <= i < j < |xs| :: leq(xs[i], xs[j])
  }

  function Filter<T>(p: T -> bool, xs: seq<T>): seq<T> {
    if xs == [] then []
    else if p(xs[0]) then [xs[0]] + Filter(p, xs[1..])
    else Filter(p, xs[1..])
  }

  lemma {:induction false} InsertPermutes<T>(x: T, ys: seq<T>, leq: (T, T) -> bool)
    ensures multiset(Insert(x, ys, leq)) == multiset{x} + multiset(ys)
    decreases |ys|
  {
    if ys != [] {
      assert ys == [ys[0]] + ys[1..];
      InsertPermutes(x, ys[1..], leq);
    }
  }

  lemma {:induction false} SortPermutes<T>(xs: seq<T>, leq: (T, T) -> bool)
    ensures multiset(Sort(xs, leq)) == multiset(xs)
    ensures |Sort(xs, leq)| == |xs|
    decreases |xs|
  {
    if xs != [] {
      assert xs == [xs[0]] + xs[1..];
      SortPermutes(xs[1..], leq);
      InsertPermutes(xs[0], Sort(xs[1..], leq), leq);
    }
    assert |multiset(Sort(xs, leq))| == |Sort(xs, leq)|;
  }

  lemma SameElements<T>(xs: seq<T>, leq: (T, T) -> bool, x: T)
    ensures x in Sort(xs, leq) <==> x in xs
  {
    SortPermutes(xs, leq);
    assert x in Sort(xs, leq) <==> x in multiset(Sort(xs, leq));
  }

  lemma {:induction false} InsertKeepsSorted<T(!new)>(x: T, ys: seq<T>, leq: (T, T) -> bool)
    requires TotalPreorder(leq) && Sorted(ys, leq)
    ensures Sorted(Insert(x, ys, leq), leq)
    decreases |ys|
  {
    if ys != [] {
      if leq(x, ys[0]) {
        forall j | 0 <= j < |ys| ensures leq(x, ys[j]) {
          assert leq(ys[0], ys[j]) || j == 0;
        }
      } else {
        InsertKeepsSorted(x, ys[1..], leq);
        var rest := Insert(x, ys[1..], leq);
        forall j | 0 <= j < |rest| ensures leq(ys[0], rest[j]) {
          InsertPermutes(x, ys[1..], leq);
          assert rest[j] in multiset(rest);
          assert rest[j] == x || rest[j] in ys[1..];
        }
      }
    }
  }

  lemma {:induction false} SortSorts<T(!new)>(xs: seq<T>, leq: (T, T) -> bool)
    requires TotalPreorder(leq)
    ensures Sorted(Sort(xs, leq), leq)
    decreases |xs|
  {
    if xs != [] {
      SortSorts(xs[1..], leq);
      InsertKeepsSorted(xs[0], Sort(xs[1..], leq), leq);
    }
  }

  // ---------- Stability ----------

  lemma {:induction false} FilterInsert<T(!new)>(p: T -> bool, x: T, ys: seq<T>, leq: (T, T) -> bool)
    requires TotalPreorder(leq) && Sorted(ys, leq)
    ensures Filter(p, Insert(x, ys, leq))
         == if p(x) then Insert(x, Filter(p, ys), leq) else Filter(p, ys)
    decreases |ys|
  {
    if ys == [] {
      assert [x][1..] == [];
    } else if leq(x, ys[0]) {
      assert ([x] + ys)[1..] == ys;
      InsertInFront(p, x, ys, leq);
    } else {
      var rest := Insert(x, ys[1..], leq);
      assert ([ys[0]] + rest)[1..] == rest;
      FilterInsert(p, x, ys[1..], leq);
      if p(ys[0]) {
        assert ([ys[0]] + Filter(p, ys[1..]))[1..] == Filter(p, ys[1..]);
      }
    }
  }

  // What is below everything stays in front, whatever is filtered out behind it.
  lemma {:induction false} InsertInFront<T(!new)>(p: T -> bool, x: T, ys: seq<T>, leq: (T, T) -> bool)
    requires forall y | y in ys :: leq(x, y)
    ensures Insert(x, Filter(p, ys), leq) == [x] + Filter(p, ys)
    decreases |ys|
  {
    if ys != [] {
      InsertInFront(p, x, ys[1..], leq);
      assert ys[0] in ys;
    }
  }

  // Sorting commutes with dropping elements. In particular equal elements keep
  // the order they came in.
  lemma {:induction false} FilterSort<T(!new)>(p: T -> bool, xs: seq<T>, leq: (T, T) -> bool)
    requires TotalPreorder(leq)
    ensures Filter(p, Sort(xs, leq)) == Sort(Filter(p, xs), leq)
    decreases |xs|
  {
    if xs != [] {
      FilterSort(p, xs[1..], leq);
      SortSorts(xs[1..], leq);
      FilterInsert(p, xs[0], Sort(xs[1..], leq), leq);
      if p(xs[0]) {
        assert ([xs[0]] + Filter(p, xs[1..]))[1..] == Filter(p, xs[1..]);
      }
    }
  }

  lemma {:induction false} TiesKeepTheirOrder<T(!new)>(xs: seq<T>, leq: (T, T) -> bool)
    requires forall x, y | x in xs && y in xs :: leq(x, y)
    ensures Sort(xs, leq) == xs
    decreases |xs|
  {
    if xs != [] {
      TiesKeepTheirOrder(xs[1..], leq);
      if |xs| > 1 {
        assert leq(xs[0], xs[1]);
      }
    }
  }

  // Sorting is stable: elements that are all alike keep the order they came in.
  lemma SortIsStable<T(!new)>(alike: T -> bool, xs: seq<T>, leq: (T, T) -> bool)
    requires TotalPreorder(leq)
    requires forall x, y | alike(x) && alike(y) :: leq(x, y)
    ensures Filter(alike, Sort(xs, leq)) == Filter(alike, xs)
  {
    FilterSort(alike, xs, leq);
    forall x | x in Filter(alike, xs) ensures alike(x) {
      FilterElements(alike, xs, x);
    }
    TiesKeepTheirOrder(Filter(alike, xs), leq);
  }

  // ---------- Removing one element ----------

  function OtherThan<T(==)>(z: T): T -> bool {
    (x: T) => x != z
  }

  function Without<T(==)>(xs: seq<T>, z: T): seq<T> {
    Filter(OtherThan(z), xs)
  }

  lemma {:induction false} WithoutAbsent<T>(xs: seq<T>, z: T)
    requires z !in xs
    ensures Without(xs, z) == xs
    decreases |xs|
  {
    if xs != [] {
      WithoutAbsent(xs[1..], z);
    }
  }

  lemma {:induction false} WithoutAt<T>(xs: seq<T>, p: nat)
    requires p < |xs| && xs[p] !in xs[..p] && xs[p] !in xs[p + 1..]
    ensures Without(xs, xs[p]) == xs[..p] + xs[p + 1..]
    decreases |xs|
  {
    if p == 0 {
      WithoutAbsent(xs[1..], xs[0]);
    } else {
      assert xs[1..][..p - 1] == xs[..p][1..] && xs[1..][p..] == xs[p + 1..];
      assert xs[0] in xs[..p];
      WithoutAt(xs[1..], p - 1);
    }
  }

  lemma {:induction false} FilterElements<T>(p: T -> bool, xs: seq<T>, x: T)
    ensures x in Filter(p, xs) <==> x in xs && p(x)
    decreases |xs|
  {
    if xs != [] {
      FilterElements(p, xs[1..], x);
    }
  }
}
