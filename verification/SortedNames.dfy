/** Finite sets of names in std::string order: the iteration order of std::set<std::string>. */
module SortedNames {
  import opened SortedSets
  import opened Numbers

  lemma {:induction false} LexLessTransitive(a: string, b: string, c: string)
    requires LexLess(a, b) && LexLess(b, c)
    ensures LexLess(a, c)
  {
    if a != [] && a[0] == b[0] && b[0] == c[0] {
      LexLessTransitive(a[1..], b[1..], c[1..]);
    }
  }

  lemma {:induction false} LexLessIrreflexive(a: string)
    ensures !LexLess(a, a)
  {
    if a != [] {
      LexLessIrreflexive(a[1..]);
    }
  }

  ghost predicate NamesIncreasing(q: seq<string>) {
    forall i, j | 0 <= i < j < |q| :: LexLess(q[i], q[j])
  }

  predicate IsFirst(m: string, s: set<string>) {
    m in s && forall x | x in s && x != m :: LexLess(m, x)
  }

  lemma {:induction false} FirstExists(s: set<string>)
    requires s != {}
    ensures exists m :: IsFirst(m, s)
  {
    var m :| m in s;
    if s == {m} {
      assert IsFirst(m, s);
    } else {
      FirstExists(s - {m});
      var n :| IsFirst(n, s - {m});
      LexLessTotal(m, n);
      var least := if LexLess(m, n) then m else n;
      forall x | x in s && x != least ensures LexLess(least, x) {
        if x != m && x != n && least == m {
          LexLessTransitive(m, n, x);
        }
      }
      assert IsFirst(least, s);
    }
  }

  lemma FirstUnique(m: string, n: string, s: set<string>)
    requires IsFirst(m, s) && IsFirst(n, s)
    ensures m == n
  {
    if m != n {
      LexLessTransitive(m, n, m);
      LexLessIrreflexive(m);
    }
  }

  function FirstName(s: set<string>): (m: string)
    requires s != {}
    ensures IsFirst(m, s)
  {
    FirstExists(s);
    assert forall m, n | IsFirst(m, s) && IsFirst(n, s) :: m == n by {
      forall m, n | IsFirst(m, s) && IsFirst(n, s) ensures m == n { FirstUnique(m, n, s); }
    }
    var m :| m in s && IsFirst(m, s);
    m
  }

  /** The names of s in std::string order. */
  function NamesInOrder(s: set<string>): seq<string> {
    if s == {} then [] else [FirstName(s)] + NamesInOrder(s - {FirstName(s)})
  }

  lemma NamesCons(m: string, rest: seq<string>)
    requires NamesIncreasing(rest) && IsFirst(m, {m} + Elements(rest)) && m !in rest
    ensures NamesIncreasing([m] + rest)
  {
    forall j | 0 <= j < |rest| ensures LexLess(m, rest[j]) {
      assert rest[j] in {m} + Elements(rest);
    }
  }

  lemma {:induction false} NamesInOrderLists(s: set<string>)
    ensures NamesIncreasing(NamesInOrder(s)) && Elements(NamesInOrder(s)) == s
  {
    if s != {} {
      var m := FirstName(s);
      var rest := NamesInOrder(s - {m});
      NamesInOrderLists(s - {m});
      ElementsCons(m, rest);
      NamesCons(m, rest);
    }
  }
}
