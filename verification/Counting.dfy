/** std::count_if and std::find_if. */
module Counting {
  function CountIf<T>(q: seq<T>, p: T -> bool): nat {
    if q == [] then 0 else CountIf(q[..|q| - 1], p) + if p(q[|q| - 1]) then 1 else 0
  }

  /** The position of the first element that satisfies p, or the length. */
  function FirstIndex<T>(q: seq<T>, p: T -> bool): (i: nat)
    ensures i <= |q| && (i < |q| ==> p(q[i]))
    ensures forall j | 0 <= j < i :: !p(q[j])
  {
    if q == [] || p(q[0]) then 0 else 1 + FirstIndex(q[1..], p)
  }

  method CountMatches<T>(q: seq<T>, p: T -> bool) returns (n: nat)
    ensures n == CountIf(q, p)
  {
    n := 0;
    for i := 0 to |q|
      invariant n == CountIf(q[..i], p)
    {
      assert q[..i + 1][..i] == q[..i];
      if p(q[i]) {
        n := n + 1;
      }
    }
    assert q[..|q|] == q;
  }

  method FindFirst<T>(q: seq<T>, p: T -> bool) returns (i: nat)
    ensures i == FirstIndex(q, p)
  {
    i := 0;
    while i < |q| && !p(q[i])
      invariant i <= |q| && forall j | 0 <= j < i :: !p(q[j])
    {
      i := i + 1;
    }
  }

  lemma {:induction false} CountIfNone<T>(q: seq<T>, p: T -> bool)
    ensures CountIf(q, p) == 0 <==> forall i | 0 <= i < |q| :: !p(q[i])
  {
    if q != [] {
      CountIfNone(q[..|q| - 1], p);
      assert forall i | 0 <= i < |q| - 1 :: q[..|q| - 1][i] == q[i];
    }
  }

  /** A count of one means one position, wherever the first one is. */
  lemma {:induction false} CountIfOne<T>(q: seq<T>, p: T -> bool, i: nat)
    requires i < |q| && p(q[i])
    ensures CountIf(q, p) == 1 <==> forall j | 0 <= j < |q| && p(q[j]) :: j == i
  {
    var n := |q| - 1;
    assert forall j | 0 <= j < n :: q[..n][j] == q[j];
    if i < n {
      CountIfOne(q[..n], p, i);
      CountIfNone(q[..n], p);
    } else {
      CountIfNone(q[..n], p);
    }
  }

  lemma {:induction false} CountIfSame<T>(a: seq<T>, b: seq<T>, p: T -> bool)
    requires |a| == |b| && forall i | 0 <= i < |a| :: p(a[i]) == p(b[i])
    ensures CountIf(a, p) == CountIf(b, p)
  {
    if a != [] {
      CountIfSame(a[..|a| - 1], b[..|b| - 1], p);
    }
  }

  lemma {:induction false} CountIfConcat<T>(a: seq<T>, b: seq<T>, p: T -> bool)
    ensures CountIf(a + b, p) == CountIf(a, p) + CountIf(b, p)
  {
    if b == [] {
      assert a + b == a;
    } else {
      CountIfConcat(a, b[..|b| - 1], p);
      assert (a + b)[..|a + b| - 1] == a + b[..|b| - 1];
    }
  }

  /** Counting does not depend on the order. */
  lemma {:induction false} CountIfPermuted<T>(a: seq<T>, b: seq<T>, p: T -> bool)
    requires multiset(a) == multiset(b)
    ensures CountIf(a, p) == CountIf(b, p)
  {
    if a == [] {
      assert |multiset(b)| == 0;
    } else {
      var x, front := a[|a| - 1], a[..|a| - 1];
      assert a == front + [x];
      assert x in multiset(b);
      var i :| 0 <= i < |b| && b[i] == x;
      var rest := b[..i] + b[i + 1..];
      assert b == b[..i] + [x] + b[i + 1..];
      assert multiset(b) == multiset(rest) + multiset{x};
      assert multiset(a) == multiset(front) + multiset{x};
      assert multiset(front) == multiset(a) - multiset{x};
      CountIfPermuted(front, rest, p);
      CountIfConcat(b[..i], b[i + 1..], p);
      CountIfConcat(b[..i], [x], p);
      CountIfConcat(b[..i] + [x], b[i + 1..], p);
    }
  }
}
