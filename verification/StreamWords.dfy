/** The blank-separated words of a text, as repeated >> on a stream of it reads them. */
module StreamWords {
  import opened ParseUtils

  /** The length of the word a text starts with. */
  function WordLength(s: string): (n: nat)
    ensures n <= |s| && (forall i | 0 <= i < n :: !IsSpace(s[i])) && (n < |s| ==> IsSpace(s[n]))
  {
    if s == [] || IsSpace(s[0]) then 0 else 1 + WordLength(s[1..])
  }

  /** What repeated >> on a stream of s yields. */
  function Words(s: string): seq<string>
    decreases |s|
  {
    if s == [] then []
    else if IsSpace(s[0]) then Words(s[1..])
    else [s[..WordLength(s)]] + Words(s[WordLength(s)..])
  }

  ghost predicate Solid(word: string) {
    word != [] && forall i | 0 <= i < |word| :: !IsSpace(word[i])
  }

  lemma WordsFirst(word: string, rest: string)
    requires Solid(word) && (rest != [] ==> IsSpace(rest[0]))
    ensures Words(word + rest) == [word] + Words(rest)
  {
    var s := word + rest;
    var n := WordLength(s);
    assert forall i | 0 <= i < |word| :: s[i] == word[i];
    assert rest != [] ==> s[|word|] == rest[0];
    assert n == |word|;
    assert s[..|word|] == word && s[|word|..] == rest;
  }

  lemma BlankFirst(rest: string)
    ensures Words([' '] + rest) == Words(rest)
  {
    assert ([' '] + rest)[1..] == rest;
  }

  /** Words joined by blanks are read back. */
  lemma {:induction false} WordsJoin(words: seq<string>)
    requires words != [] && forall i | 0 <= i < |words| :: Solid(words[i])
    ensures Words(Join(words, ' ')) == words
  {
    var first := words[0];
    if |words| == 1 {
      WordsFirst(first, []);
      assert first + [] == first;
    } else {
      var rest := Join(words[1..], ' ');
      WordsJoin(words[1..]);
      WordsFirst(first, [' '] + rest);
      BlankFirst(rest);
      assert Join(words, ' ') == first + ([' '] + rest);
    }
  }

  /** The joined text has no blank ends. */
  lemma {:induction false} JoinTight(words: seq<string>)
    requires words != [] && forall i | 0 <= i < |words| :: Solid(words[i])
    ensures Join(words, ' ') != [] && Tight(Join(words, ' '))
  {
    assert Solid(words[0]);
    if |words| > 1 {
      JoinTight(words[1..]);
      assert Join(words, ' ') == words[0] + [' '] + Join(words[1..], ' ');
    }
  }
}
