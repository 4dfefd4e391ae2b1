/** Sorting by a numeric key. */
module Sorting {
  /** std::sort by a key; equal keys keep their order. */
  function Inserted<T>(q: seq<T>, x: T, key: T -> nat): (result: seq<T>)
    ensures multiset(result) == multiset(q) + multiset{x}
  {
    if q == [] || key(q[|q| - 1]) <= key(x) then q + [x]
    else
      var n := |q| - 1;
      assert q == q[..n] + [q[n]];
      Inserted(q[..n], x, key) + [q[n]]
  }

  function SortedByKey<T>(q: seq<T>, key: T -> nat): (result: seq<T>)
    ensures multiset(result) == multiset(q)
  {
    if q == [] then [] else
    assert q == q[..|q| - 1] + [q[|q| - 1]];
    Inserted(SortedByKey(q[..|q| - 1], key), q[|q| - 1], key)
  }

  ghost predicate Ordered<T>(q: seq<T>, key: T -> nat) {
    forall i, j | 0 <= i < j < |q| :: key(q[i]) <= key(q[j])
  }

  lemma OrderedSnoc<T>(q: seq<T>, x: T, key: T -> nat)
    requires Ordered(q, key) && forall y | y in q :: key(y) <= key(x)
    ensures Ordered(q + [x], key)
  {
  }

  lemma {:induction false} InsertedOrdered<T>(q: seq<T>, x: T, key: T -> nat)
    requires Ordered(q, key)
    ensures Ordered(Inserted(q, x, key), key)
    ensures forall y | y in Inserted(q, x, key) :: y == x || y in q
  {
    if q != [] && key(q[|q| - 1]) > key(x) {
      var n := |q| - 1;
      InsertedOrdered(q[..n], x, key);
      OrderedSnoc(Inserted(q[..n], x, key), q[n], key);
    } else {
      OrderedSnoc(q, x, key);
    }
  }

  lemma {:induction false} SortedOrdered<T>(q: seq<T>, key: T -> nat)
    ensures Ordered(SortedByKey(q, key), key)
  {
    if q != [] {
      SortedOrdered(q[..|q| - 1], key);
      InsertedOrdered(SortedByKey(q[..|q| - 1], key), q[|q| - 1], key);
    }
  }
}
