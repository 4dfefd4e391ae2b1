/**
  Text primitives of src/parser/parse_utils.cpp: trimming, splitting, unsigned decimal and
  hexadecimal numbers. Every parser of the project is built on these.
 */
module ParseUtils {
  const U32_MAX: nat := 0xFFFF_FFFF
  const U64_MAX: nat := 0xFFFF_FFFF_FFFF_FFFF
  const I64_MAX: nat := 0x7FFF_FFFF_FFFF_FFFF

  type u32 = x: nat | x < 0x1_0000_0000

  // ----- Trimming -----

  /** std::isspace in the "C" locale: space, \t, \n, \v, \f and \r. */
  predicate IsSpace(c: char) {
    c == ' ' || '\t' <= c <= '\r'
  }

  lemma SpaceExact(c: char)
    ensures IsSpace(c) <==> c in {' ', '\t', '\n', 11 as char, 12 as char, '\r'}
  {
  }

  ghost predicate AllSpace(s: string) {
    forall i | 0 <= i < |s| :: IsSpace(s[i])
  }

  /** No space at either end. */
  ghost predicate Tight(s: string) {
    s != [] ==> !IsSpace(s[0]) && !IsSpace(s[|s| - 1])
  }

  function TrimLeft(s: string): (r: string) {
    if s != [] && IsSpace(s[0]) then TrimLeft(s[1..]) else s
  }

  function TrimRight(s: string): (r: string) {
    if s != [] && IsSpace(s[|s| - 1]) then TrimRight(s[..|s| - 1]) else s
  }

  function Trimmed(s: string): string {
    TrimRight(TrimLeft(s))
  }

  lemma {:induction false} TrimLeftSkips(a: string, s: string)
    requires AllSpace(a)
    ensures TrimLeft(a + s) == TrimLeft(s)
  {
    if a == [] {
      assert a + s == s;
    } else {
      assert (a + s)[1..] == a[1..] + s;
      TrimLeftSkips(a[1..], s);
    }
  }

  lemma {:induction false} TrimRightSkips(s: string, b: string)
    requires AllSpace(b)
    ensures TrimRight(s + b) == TrimRight(s)
  {
    if b == [] {
      assert s + b == s;
    } else {
      assert (s + b)[..|s + b| - 1] == s + b[..|b| - 1];
      TrimRightSkips(s, b[..|b| - 1]);
    }
  }

  lemma {:induction false} TrimAllSpace(s: string)
    requires AllSpace(s)
    ensures Trimmed(s) == []
  {
    TrimLeftSkips(s, []);
    assert s + [] == s;
  }

  /** Trimming removes exactly the maximal blank ends: the trimmed text is the unique tight middle. */
  lemma {:induction false} TrimmedMiddle(a: string, m: string, b: string)
    requires AllSpace(a) && AllSpace(b) && Tight(m)
    ensures Trimmed(a + m + b) == m
  {
    if m == [] {
      assert AllSpace(a + m + b);
      TrimAllSpace(a + m + b);
    } else {
      assert a + m + b == a + (m + b);
      TrimLeftSkips(a, m + b);
      assert TrimLeft(m + b) == m + b;
      TrimRightSkips(m, b);
    }
  }

  lemma {:induction false} TrimmedTight(m: string)
    requires Tight(m)
    ensures Trimmed(m) == m
  {
    TrimmedMiddle([], m, []);
    assert [] + m + [] == m;
  }

  lemma {:induction false} TrimLeftParts(s: string) returns (a: string)
    ensures AllSpace(a) && s == a + TrimLeft(s)
    ensures TrimLeft(s) != [] ==> !IsSpace(TrimLeft(s)[0])
  {
    a := [];
    if s != [] && IsSpace(s[0]) {
      var rest := TrimLeftParts(s[1..]);
      a := [s[0]] + rest;
      assert s == [s[0]] + s[1..];
    }
  }

  lemma {:induction false} TrimRightParts(s: string) returns (b: string)
    ensures AllSpace(b) && s == TrimRight(s) + b
    ensures TrimRight(s) != [] ==> !IsSpace(TrimRight(s)[|TrimRight(s)| - 1])
  {
    b := [];
    if s != [] && IsSpace(s[|s| - 1]) {
      var rest := TrimRightParts(s[..|s| - 1]);
      b := rest + [s[|s| - 1]];
      assert s == s[..|s| - 1] + [s[|s| - 1]];
    }
  }

  /** Every text is blanks, then its tight trimmed middle, then blanks. */
  lemma TrimmedParts(s: string) returns (a: string, b: string)
    ensures AllSpace(a) && AllSpace(b) && Tight(Trimmed(s)) && s == a + Trimmed(s) + b
  {
    a := TrimLeftParts(s);
    b := TrimRightParts(TrimLeft(s));
    if Trimmed(s) != [] {
      assert Trimmed(s)[0] == TrimLeft(s)[0];
    }
  }

  /** The two scanning loops of trim. */
  method Trim(s: string) returns (r: string)
    ensures r == Trimmed(s)
  {
    var begin := 0;
    while begin != |s| && IsSpace(s[begin])
      invariant 0 <= begin <= |s|
      invariant AllSpace(s[..begin])
      decreases |s| - begin
    {
      begin := begin + 1;
    }
    var end := |s|;
    while end != begin && IsSpace(s[end - 1])
      invariant begin <= end <= |s|
      invariant AllSpace(s[end..])
    {
      end := end - 1;
    }
    r := s[begin..end];
    assert s == s[..begin] + r + s[end..];
    TrimmedMiddle(s[..begin], r, s[end..]);
  }

  // ----- Splitting -----

  function Pieces(s: string, d: char): (r: seq<string>)
    ensures |r| >= 1
  {
    if s == [] then [[]]
    else if s[0] == d then [[]] + Pieces(s[1..], d)
    else var rest := Pieces(s[1..], d); [[s[0]] + rest[0]] + rest[1..]
  }

  function Join(parts: seq<string>, d: char): string
    requires |parts| >= 1
  {
    if |parts| == 1 then parts[0] else parts[0] + [d] + Join(parts[1..], d)
  }

  ghost predicate Free(parts: seq<string>, d: char) {
    forall i | 0 <= i < |parts| :: d !in parts[i]
  }

  /** Splitting loses nothing and leaves no separator inside a piece. */
  lemma {:induction false} JoinPieces(s: string, d: char)
    ensures Join(Pieces(s, d), d) == s && Free(Pieces(s, d), d)
  {
    if s != [] {
      var rest := Pieces(s[1..], d);
      JoinPieces(s[1..], d);
      assert s == [s[0]] + s[1..];
      if s[0] == d {
        assert ([[]] + rest)[1..] == rest;
      } else {
        var all := [[s[0]] + rest[0]] + rest[1..];
        assert all[1..] == rest[1..];
        forall i | 0 <= i < |all| ensures d !in all[i] {
          assert i > 0 ==> all[i] == rest[i];
        }
      }
    }
  }

  lemma {:induction false} PiecesOfPrefix(p: string, s: string, d: char)
    requires d !in p
    ensures Pieces(p + s, d) == [p + Pieces(s, d)[0]] + Pieces(s, d)[1..]
  {
    if p == [] {
      assert p + s == s;
      assert p + Pieces(s, d)[0] == Pieces(s, d)[0];
    } else {
      assert (p + s)[0] == p[0] && (p + s)[1..] == p[1..] + s;
      PiecesOfPrefix(p[1..], s, d);
      assert [p[0]] + (p[1..] + Pieces(s, d)[0]) == p + Pieces(s, d)[0];
    }
  }

  /** Splitting is the only inverse of joining: separator-free pieces come back unchanged. */
  lemma {:induction false} PiecesJoin(parts: seq<string>, d: char)
    requires |parts| >= 1 && Free(parts, d)
    ensures Pieces(Join(parts, d), d) == parts
  {
    if |parts| == 1 {
      PiecesOfPrefix(parts[0], [], d);
      assert parts[0] + [] == parts[0];
    } else {
      var tail := [d] + Join(parts[1..], d);
      PiecesJoin(parts[1..], d);
      assert tail[1..] == Join(parts[1..], d);
      PiecesOfPrefix(parts[0], tail, d);
      assert parts[0] + [d] + Join(parts[1..], d) == parts[0] + tail;
      assert Pieces(tail, d) == [[]] + parts[1..];
      assert parts[0] + [] == parts[0];
      assert ([[]] + parts[1..])[1..] == parts[1..];
      assert [parts[0]] + parts[1..] == parts;
    }
  }

  lemma {:induction false} JoinAppend(parts: seq<string>, p: string, d: char)
    requires |parts| >= 1
    ensures Join(parts + [p], d) == Join(parts, d) + [d] + p
  {
    if |parts| > 1 {
      assert (parts + [p])[1..] == parts[1..] + [p];
      JoinAppend(parts[1..], p, d);
    }
  }

  lemma {:induction false} JoinConcat(a: seq<string>, b: seq<string>, d: char)
    requires |a| >= 1 && |b| >= 1
    ensures Join(a + b, d) == Join(a, d) + [d] + Join(b, d)
  {
    if |a| == 1 {
      assert (a + b)[1..] == b;
    } else {
      assert (a + b)[1..] == a[1..] + b;
      JoinConcat(a[1..], b, d);
    }
  }

  lemma PiecesConcat(a: string, b: string, d: char)
    ensures Pieces(a + [d] + b, d) == Pieces(a, d) + Pieces(b, d)
  {
    JoinPieces(a, d);
    JoinPieces(b, d);
    JoinConcat(Pieces(a, d), Pieces(b, d), d);
    PiecesJoin(Pieces(a, d) + Pieces(b, d), d);
  }

  /** The accumulating loop of split. */
  method Split(s: string, delimiter: char) returns (result: seq<string>)
    ensures result == Pieces(s, delimiter)
  {
    result := [];
    var current: string := [];
    for i := 0 to |s|
      invariant Free(result + [current], delimiter)
      invariant Join(result + [current], delimiter) == s[..i]
    {
      assert s[..i + 1] == s[..i] + [s[i]];
      if s[i] == delimiter {
        JoinAppend(result + [current], [], delimiter);
        assert s[..i] + [delimiter] + [] == s[..i + 1];
        result, current := result + [current], [];
      } else {
        if result != [] {
          JoinAppend(result, current, delimiter);
          JoinAppend(result, current + [s[i]], delimiter);
          assert Join(result, delimiter) + [delimiter] + (current + [s[i]])
              == Join(result, delimiter) + [delimiter] + current + [s[i]];
        } else {
          assert result + [current] == [current];
        }
        forall k | 0 <= k < |result + [current]| ensures delimiter !in (result + [current + [s[i]]])[k] {
          assert delimiter !in (result + [current])[k];
        }
        current := current + [s[i]];
        assert result == [] ==> result + [current] == [current];
      }
    }
    assert s[..|s|] == s;
    PiecesJoin(result + [current], delimiter);
    result := result + [current];
  }

  // ----- Searching -----

  /** Index of the first c, or |s| when there is none (npos in the source). */
  function Find(s: string, c: char): (i: nat)
    ensures i <= |s| && c !in s[..i] && (i < |s| ==> s[i] == c)
  {
    if s == [] || s[0] == c then 0 else
      var i := 1 + Find(s[1..], c);
      assert s[..i] == [s[0]] + s[1..][..i - 1];
      i
  }

  /** Index of the last c, or |s| when there is none. */
  function FindLast(s: string, c: char): (i: nat)
    ensures i <= |s| && (i < |s| ==> s[i] == c && c !in s[i + 1..]) && (i == |s| ==> c !in s)
  {
    if s == [] then 0
    else if s[|s| - 1] == c then |s| - 1
    else
      var n := |s| - 1;
      var i := FindLast(s[..n], c);
      assert s == s[..n] + [s[n]];
      if i < n then assert s[i + 1..] == s[..n][i + 1..] + [s[n]]; i else |s|
  }

  lemma FindSplits(a: string, c: char, b: string)
    requires c !in a
    ensures Find(a + [c] + b, c) == |a|
  {
    var s := a + [c] + b;
    var i := Find(s, c);
    assert s[|a|] == c && s[..|a|] == a;
  }

  lemma FindLastSplits(a: string, c: char, b: string)
    requires c !in b
    ensures FindLast(a + [c] + b, c) == |a|
  {
    var s := a + [c] + b;
    var i := FindLast(s, c);
    assert s[|a|] == c && s[|a| + 1..] == b;
  }
}
