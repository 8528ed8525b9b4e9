/** Stable insertion sort by a strict weak order. */
module Sorting {

  /** Insertion from the back, after all that x does not precede. */
  function Insert<T>(less: (T, T) -> bool, sorted: seq<T>, x: T): seq<T> {
    if sorted == [] || !less(x, sorted[|sorted| - 1]) then sorted + [x]
    else Insert(less, sorted[..|sorted| - 1], x) + [sorted[|sorted| - 1]]
  }

  function Sort<T>(less: (T, T) -> bool, xs: seq<T>): seq<T> {
    if xs == [] then [] else Insert(less, Sort(less, xs[..|xs| - 1]), xs[|xs| - 1])
  }

  ghost predicate WeakOrder<T(!new)>(less: (T, T) -> bool) {
    && (forall a, b :: less(a, b) ==> !less(b, a))
    && (forall a, b, c :: !less(b, a) && !less(c, b) ==> !less(c, a))
  }

  /** Nothing precedes an earlier element. */
  ghost predicate InOrder<T>(less: (T, T) -> bool, xs: seq<T>) {
    forall i, j :: 0 <= i < j < |xs| ==> !less(xs[j], xs[i])
  }

  ghost predicate StrictlyAscending<T>(less: (T, T) -> bool, xs: seq<T>) {
    forall i, j :: 0 <= i < j < |xs| ==> less(xs[i], xs[j])
  }

  /** Of any two elements one precedes the other. */
  ghost predicate Comparable<T>(less: (T, T) -> bool, xs: seq<T>) {
    forall i, j :: 0 <= i < j < |xs| ==> less(xs[i], xs[j]) || less(xs[j], xs[i])
  }

  lemma LastOf<T>(xs: seq<T>)
    requires xs != []
    ensures xs == xs[..|xs| - 1] + [xs[|xs| - 1]]
  {
  }

  lemma {:induction false} InsertElements<T>(less: (T, T) -> bool, sorted: seq<T>, x: T)
    ensures multiset(Insert(less, sorted, x)) == multiset(sorted) + multiset{x}
  {
    if sorted != [] && less(x, sorted[|sorted| - 1]) {
      InsertElements(less, sorted[..|sorted| - 1], x);
      LastOf(sorted);
    }
  }

  lemma {:induction false} SortElements<T>(less: (T, T) -> bool, xs: seq<T>)
    ensures multiset(Sort(less, xs)) == multiset(xs)
    ensures |Sort(less, xs)| == |xs|
    ensures forall x :: x in Sort(less, xs) <==> x in xs
  {
    if xs != [] {
      SortElements(less, xs[..|xs| - 1]);
      InsertElements(less, Sort(less, xs[..|xs| - 1]), xs[|xs| - 1]);
      LastOf(xs);
    }
    assert |multiset(Sort(less, xs))| == |multiset(xs)|;
    assert forall x :: x in Sort(less, xs) <==> x in multiset(Sort(less, xs));
  }

  lemma AppendInOrder<T>(less: (T, T) -> bool, xs: seq<T>, x: T)
    requires InOrder(less, xs) && forall y :: y in xs ==> !less(x, y)
    ensures InOrder(less, xs + [x])
  {
  }

  lemma {:induction false} InsertOrdered<T(!new)>(less: (T, T) -> bool, sorted: seq<T>, x: T)
    requires WeakOrder(less) && InOrder(less, sorted)
    ensures InOrder(less, Insert(less, sorted, x))
  {
    if sorted != [] {
      var init, last := sorted[..|sorted| - 1], sorted[|sorted| - 1];
      if less(x, last) {
        InsertOrdered(less, init, x);
        InsertElements(less, init, x);
        var r := Insert(less, init, x);
        forall y | y in r ensures !less(last, y) {
          assert y in multiset(r);
        }
        AppendInOrder(less, r, last);
      } else {
        forall y | y in sorted ensures !less(x, y) {
          assert !less(last, y);
        }
        AppendInOrder(less, sorted, x);
      }
    }
  }

  /** The result is in order. */
  lemma {:induction false} SortOrdered<T(!new)>(less: (T, T) -> bool, xs: seq<T>)
    requires WeakOrder(less)
    ensures InOrder(less, Sort(less, xs))
  {
    hide WeakOrder, InOrder, Insert;
    if xs == [] {
      NothingInOrder(less);
    } else {
      SortOrdered(less, xs[..|xs| - 1]);
      InsertOrdered(less, Sort(less, xs[..|xs| - 1]), xs[|xs| - 1]);
    }
  }

  lemma NothingInOrder<T>(less: (T, T) -> bool)
    ensures InOrder(less, [])
  {
  }

  lemma AppendAscending<T>(less: (T, T) -> bool, xs: seq<T>, x: T)
    requires StrictlyAscending(less, xs) && forall y :: y in xs ==> less(y, x)
    ensures StrictlyAscending(less, xs + [x])
  {
  }

  lemma LessTransitive<T(!new)>(less: (T, T) -> bool, a: T, b: T, c: T)
    requires WeakOrder(less) && less(a, b) && less(b, c)
    ensures less(a, c)
  {
    assert !less(c, b);
  }

  lemma {:induction false} InsertAscending<T(!new)>(less: (T, T) -> bool, sorted: seq<T>, x: T)
    requires WeakOrder(less) && StrictlyAscending(less, sorted)
    requires forall y :: y in sorted ==> less(x, y) || less(y, x)
    ensures StrictlyAscending(less, Insert(less, sorted, x))
  {
    if sorted != [] {
      var init, last := sorted[..|sorted| - 1], sorted[|sorted| - 1];
      if less(x, last) {
        InsertAscending(less, init, x);
        InsertElements(less, init, x);
        var r := Insert(less, init, x);
        forall y | y in r ensures less(y, last) {
          assert y in multiset(r);
        }
        AppendAscending(less, r, last);
      } else {
        assert last in sorted;
        forall y | y in sorted ensures less(y, x) {
          if y in init {
            LessTransitive(less, y, last, x);
          }
        }
        AppendAscending(less, sorted, x);
      }
    }
  }

  /** Elements that are pairwise comparable come out strictly ascending. */
  lemma {:induction false} SortAscending<T(!new)>(less: (T, T) -> bool, xs: seq<T>)
    requires WeakOrder(less) && Comparable(less, xs)
    ensures StrictlyAscending(less, Sort(less, xs))
  {
    hide WeakOrder, Insert;
    if xs != [] {
      var init, last := xs[..|xs| - 1], xs[|xs| - 1];
      SortAscending(less, init);
      SortElements(less, init);
      InsertAscending(less, Sort(less, init), last);
    }
  }

  lemma InsertLast<T>(less: (T, T) -> bool, sorted: seq<T>, x: T)
    requires sorted != [] ==> !less(x, sorted[|sorted| - 1])
    ensures Insert(less, sorted, x) == sorted + [x]
  {
  }

  /** An ascending list is left as it is. */
  lemma {:induction false} SortFixed<T(!new)>(less: (T, T) -> bool, xs: seq<T>)
    requires WeakOrder(less) && StrictlyAscending(less, xs)
    ensures Sort(less, xs) == xs
  {
    hide Insert;
    if xs != [] {
      var init, last := xs[..|xs| - 1], xs[|xs| - 1];
      SortFixed(less, init);
      InsertLast(less, init, last);
      LastOf(xs);
    }
  }
}
