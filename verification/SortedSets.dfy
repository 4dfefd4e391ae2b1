/** Finite sets of numbers in ascending order: the iteration order of std::set and std::map keys. */
module SortedSets {
  ghost predicate Increasing(q: seq<nat>) {
    forall i, j | 0 <= i < j < |q| :: q[i] < q[j]
  }

  function Elements<T>(q: seq<T>): set<T> {
    set x | x in q
  }

  ghost predicate IsLeast(m: nat, s: set<nat>) {
    m in s && forall x | x in s :: m <= x
  }

  lemma {:induction false} LeastExists(s: set<nat>)
    requires s != {}
    ensures exists m :: IsLeast(m, s)
  {
    var m :| m in s;
    if s == {m} {
      assert IsLeast(m, s);
    } else {
      LeastExists(s - {m});
      var n :| IsLeast(n, s - {m});
      assert forall x | x in s :: x == m || x in s - {m};
      assert IsLeast(if n < m then n else m, s);
    }
  }

  function Minimum(s: set<nat>): (m: nat)
    requires s != {}
    ensures IsLeast(m, s)
  {
    LeastExists(s);
    var m :| m in s && forall x | x in s :: m <= x;
    m
  }

  /** The elements of s, smallest first. */
  function Ascending(s: set<nat>): seq<nat> {
    if s == {} then [] else [Minimum(s)] + Ascending(s - {Minimum(s)})
  }

  lemma ElementsCons<T>(x: T, q: seq<T>)
    ensures Elements([x] + q) == {x} + Elements(q)
  {
  }

  lemma IncreasingCons(m: nat, rest: seq<nat>)
    requires Increasing(rest) && IsLeast(m, {m} + Elements(rest)) && m !in rest
    ensures Increasing([m] + rest)
  {
    forall j | 0 <= j < |rest| ensures m < rest[j] {
      assert rest[j] in {m} + Elements(rest);
    }
  }

  lemma {:induction false} AscendingLists(s: set<nat>)
    ensures Increasing(Ascending(s)) && |Ascending(s)| == |s| && Elements(Ascending(s)) == s
  {
    if s != {} {
      var m := Minimum(s);
      var rest := Ascending(s - {m});
      AscendingLists(s - {m});
      ElementsCons(m, rest);
      IncreasingCons(m, rest);
    }
  }

  lemma AscendingMembers(s: set<nat>)
    ensures Increasing(Ascending(s)) && |Ascending(s)| == |s|
    ensures forall x :: x in Ascending(s) <==> x in s
  {
    AscendingLists(s);
    forall x ensures x in Ascending(s) <==> x in s {
      assert x in Ascending(s) <==> x in Elements(Ascending(s));
    }
  }

  ghost predicate NoDuplicates<T>(q: seq<T>) {
    forall i, j | 0 <= i < j < |q| :: q[i] != q[j]
  }

  lemma DistinctSnoc<T>(q: seq<T>, x: T)
    ensures Elements(q + [x]) == Elements(q) + {x}
    ensures NoDuplicates(q + [x]) <==> NoDuplicates(q) && x !in q
  {
    var all := q + [x];
    assert all[|q|] == x && forall i | 0 <= i < |q| :: all[i] == q[i];
    if x in q {
      var i :| 0 <= i < |q| && q[i] == x;
      assert all[i] == all[|q|];
    }
  }

  /** A sequence has as many elements as positions exactly when none comes twice. */
  lemma {:induction false} DistinctSize<T>(q: seq<T>)
    ensures |Elements(q)| <= |q|
    ensures |Elements(q)| == |q| <==> NoDuplicates(q)
  {
    if q != [] {
      var n := |q| - 1;
      DistinctSize(q[..n]);
      assert q == q[..n] + [q[n]];
      DistinctSnoc(q[..n], q[n]);
    }
  }

  lemma {:induction false} SubsetSize<T>(a: set<T>, b: set<T>)
    requires a <= b
    ensures |a| <= |b|
  {
    if x :| x in a {
      SubsetSize(a - {x}, b - {x});
    }
  }

  /** The numbers from first up to, but not including, end. */
  function Interval(first: nat, end: nat): (s: set<nat>)
    ensures forall x :: x in s <==> first <= x < end
  {
    if end <= first then {} else Interval(first, end - 1) + {end - 1}
  }

  lemma {:induction false} IntervalSize(first: nat, end: nat)
    requires first <= end
    ensures |Interval(first, end)| == end - first
  {
    if first < end {
      IntervalSize(first, end - 1);
      var front := Interval(first, end - 1);
      assert end - 1 !in front && Interval(first, end) == front + {end - 1};
    }
  }

  /** A set that holds n consecutive numbers has at least n elements. */
  lemma {:induction false} HoldsInterval(s: set<nat>, first: nat, n: nat)
    requires forall x | first <= x < first + n :: x in s
    ensures |s| >= n
  {
    if n > 0 {
      HoldsInterval(s - {first + n - 1}, first, n - 1);
    }
  }

  /** The numbers of q that satisfy keep, in order. */
  function Filtered(q: seq<nat>, keep: nat -> bool): seq<nat> {
    if q == [] then [] else
    Filtered(q[..|q| - 1], keep) + if keep(q[|q| - 1]) then [q[|q| - 1]] else []
  }

  lemma FilteredStep(q: seq<nat>, keep: nat -> bool, i: nat)
    requires i < |q|
    ensures Filtered(q[..i + 1], keep) == if keep(q[i]) then Filtered(q[..i], keep) + [q[i]] else Filtered(q[..i], keep)
  {
    assert q[..i + 1][..i] == q[..i];
  }

  lemma {:induction false} FilteredMembers(q: seq<nat>, keep: nat -> bool, x: nat)
    ensures x in Filtered(q, keep) <==> x in q && keep(x)
  {
    if q != [] {
      var n := |q| - 1;
      FilteredMembers(q[..n], keep, x);
      assert q == q[..n] + [q[n]];
    }
  }

  lemma IncreasingSnoc(q: seq<nat>, x: nat)
    requires Increasing(q) && forall y | y in q :: y < x
    ensures Increasing(q + [x])
  {
    assert forall i | 0 <= i < |q| :: q[i] in q;
  }

  lemma {:induction false} FilteredIncreasing(q: seq<nat>, keep: nat -> bool)
    requires Increasing(q)
    ensures Increasing(Filtered(q, keep))
  {
    if q != [] {
      var n := |q| - 1;
      var front := Filtered(q[..n], keep);
      FilteredIncreasing(q[..n], keep);
      if keep(q[n]) {
        forall y | y in front ensures y < q[n] {
          FilteredMembers(q[..n], keep, y);
        }
        IncreasingSnoc(front, q[n]);
      }
    }
  }

  lemma {:induction false} FilteredLength(q: seq<nat>, keep: nat -> bool)
    ensures |Filtered(q, keep)| <= |q|
    ensures |Filtered(q, keep)| == |q| <==> forall i | 0 <= i < |q| :: keep(q[i])
  {
    if q != [] {
      var n := |q| - 1;
      FilteredLength(q[..n], keep);
      assert forall i | 0 <= i < n :: q[..n][i] == q[i];
    }
  }

  lemma FilteredExact(q: seq<nat>, keep: nat -> bool)
    ensures forall x :: x in Filtered(q, keep) <==> x in q && keep(x)
    ensures Increasing(q) ==> Increasing(Filtered(q, keep))
    ensures |Filtered(q, keep)| == |q| <==> forall x | x in q :: keep(x)
  {
    forall x ensures x in Filtered(q, keep) <==> x in q && keep(x) {
      FilteredMembers(q, keep, x);
    }
    if Increasing(q) {
      FilteredIncreasing(q, keep);
    }
    FilteredLength(q, keep);
    assert forall i | 0 <= i < |q| :: q[i] in q;
  }
}
