/**
  Text forms that must invert: shell_argument of src/reader/linux/file_utils.hpp against the quoting rules of
  sections 2.2.1 and 2.2.2 of the POSIX.1-2017 Shell Command Language, and unescape_mount of
  src/common/mountinfo.cpp against the kernel's octal escapes.
 */
module Quoting {
  import opened Options

  // ----- Shell words -----

  function QuotedBody(value: string): string {
    if value == [] then [] else
    QuotedBody(value[..|value| - 1]) + if value[|value| - 1] == '\'' then "'\\''" else [value[|value| - 1]]
  }

  /** The text of one shell argument. */
  function Quoted(value: string): string {
    "'" + QuotedBody(value) + "'"
  }

  method ShellArgument(value: string) returns (result: string)
    ensures result == Quoted(value)
  {
    result := "'";
    for i := 0 to |value|
      invariant result == "'" + QuotedBody(value[..i])
    {
      assert value[..i + 1][..i] == value[..i];
      result := result + if value[i] == '\'' then "'\\''" else [value[i]];
    }
    assert value[..|value|] == value;
    result := result + "'";
  }

  /** Characters with a meaning of their own outside quotes; an argument must never expose one. */
  predicate IsSpecial(c: char) {
    c in "|&;<>()$`\"\t\n*?[#~=%\0"
  }

  datatype Mode = Unquoted | SingleQuoted

  /**
    Reads a command line into words. Outside quotes a blank ends the word, a backslash keeps the next
    character (a newline after it is dropped), and an exposed special character or an unfinished
    quote makes the reading fail. Inside single quotes every character but the quote is literal.
    `word` is the word in progress, if one has begun.
   */
  function ReadWords(text: string, mode: Mode, word: Option<string>, words: seq<string>): Option<seq<string>> {
    if text == [] then
      if mode == SingleQuoted then None else Some(if word.None? then words else words + [word.value])
    else
      var c, rest := text[0], text[1..];
      if mode == SingleQuoted then
        if c == '\'' then ReadWords(rest, Unquoted, word, words)
        else ReadWords(rest, SingleQuoted, Some(word.GetOr([]) + [c]), words)
      else if c == '\'' then ReadWords(rest, SingleQuoted, Some(word.GetOr([])), words)
      else if c == '\\' then
        if rest == [] then None
        else if rest[0] == '\n' then ReadWords(rest[1..], Unquoted, word, words)
        else ReadWords(rest[1..], Unquoted, Some(word.GetOr([]) + [rest[0]]), words)
      else if c == ' ' then ReadWords(rest, Unquoted, None, if word.None? then words else words + [word.value])
      else if IsSpecial(c) then None
      else ReadWords(rest, Unquoted, Some(word.GetOr([]) + [c]), words)
  }

  function CommandWords(text: string): Option<seq<string>> {
    ReadWords(text, Unquoted, None, [])
  }

  /** Outside quotes a character with a meaning of its own is not read as a word. */
  lemma SpecialRefused(c: char, tail: string)
    requires c in "|&;<>()$`\"\t\n*?[#~=%\0"
    ensures CommandWords([c] + tail) == None
  {
    assert ([c] + tail)[0] == c;
  }

  /** The four characters standing for a quote: close, escaped quote, reopen. */
  lemma ReadQuote(tail: string, word: string, words: seq<string>)
    ensures ReadWords("'\\''" + tail, SingleQuoted, Some(word), words)
         == ReadWords(tail, SingleQuoted, Some(word + "'"), words)
  {
    var t := "'\\''" + tail;
    var u := t[1..];
    assert t[0] == '\'' && u[0] == '\\' && u[1..][0] == '\'' && u[1..][1..] == ['\''] + tail;
    assert (['\''] + tail)[1..] == tail;
    calc {
      ReadWords(t, SingleQuoted, Some(word), words);
      ReadWords(u, Unquoted, Some(word), words);
      ReadWords(['\''] + tail, Unquoted, Some(word + "'"), words);
      ReadWords(tail, SingleQuoted, Some(word + "'"), words);
    }
  }

  /** Inside the quotes, the body of an argument adds exactly the argument's characters to the word. */
  lemma {:induction false} ReadBody(value: string, tail: string, word: string, words: seq<string>)
    ensures ReadWords(QuotedBody(value) + tail, SingleQuoted, Some(word), words)
         == ReadWords(tail, SingleQuoted, Some(word + value), words)
  {
    if value == [] {
      assert QuotedBody(value) + tail == tail && word + value == word;
    } else {
      var n := |value| - 1;
      var piece := if value[n] == '\'' then "'\\''" else [value[n]];
      ReadBody(value[..n], piece + tail, word, words);
      assert QuotedBody(value) + tail == QuotedBody(value[..n]) + (piece + tail);
      assert word + value[..n] + [value[n]] == word + value;
      if value[n] == '\'' {
        ReadQuote(tail, word + value[..n], words);
      } else {
        assert (piece + tail)[1..] == tail;
      }
    }
  }

  lemma ReadArgument(value: string, tail: string, words: seq<string>)
    ensures ReadWords(Quoted(value) + tail, Unquoted, None, words)
         == ReadWords(tail, Unquoted, Some(value), words)
  {
    var t := Quoted(value) + tail;
    assert t[1..] == QuotedBody(value) + ("'" + tail);
    ReadBody(value, "'" + tail, [], words);
    assert ("'" + tail)[1..] == tail && [] + value == value;
  }

  function CommandLine(arguments: seq<string>): string
    requires |arguments| >= 1
  {
    if |arguments| == 1 then Quoted(arguments[0])
    else Quoted(arguments[0]) + " " + CommandLine(arguments[1..])
  }

  /** A blank ends a word, and so does the end of the text. */
  lemma ReadBlank(text: string, word: string, words: seq<string>)
    ensures ReadWords(" " + text, Unquoted, Some(word), words) == ReadWords(text, Unquoted, None, words + [word])
    ensures ReadWords([], Unquoted, Some(word), words) == Some(words + [word])
  {
    assert (" " + text)[1..] == text;
  }

  lemma ReadFirst(argument: string, text: string, words: seq<string>)
    ensures ReadWords(Quoted(argument) + (" " + text), Unquoted, None, words)
         == ReadWords(text, Unquoted, None, words + [argument])
  {
    ReadArgument(argument, " " + text, words);
    ReadBlank(text, argument, words);
  }

  lemma ReadLast(argument: string, words: seq<string>)
    ensures ReadWords(Quoted(argument), Unquoted, None, words) == Some(words + [argument])
  {
    ReadArgument(argument, [], words);
    ReadBlank([], argument, words);
    assert Quoted(argument) + [] == Quoted(argument);
  }

  /** Reading on from between two words, with the words read so far. */
  type Reading = (string, seq<string>) -> Option<seq<string>>

  const READ: Reading := (text: string, words: seq<string>) => ReadWords(text, Unquoted, None, words)

  ghost predicate ReadsArguments(read: Reading) {
    && (forall argument, text, words :: read(Quoted(argument) + (" " + text), words) == read(text, words + [argument]))
    && (forall argument, words :: read(Quoted(argument), words) == Some(words + [argument]))
  }

  lemma ReadOneMore(read: Reading, first: string, text: string, rest: seq<string>, words: seq<string>)
    requires ReadsArguments(read) && read(text, words + [first]) == Some(words + [first] + rest)
    ensures read(Quoted(first) + (" " + text), words) == Some(words + ([first] + rest))
  {
    assert words + [first] + rest == words + ([first] + rest);
  }

  lemma {:induction false} ReadCommandLine(read: Reading, arguments: seq<string>, words: seq<string>)
    requires |arguments| >= 1 && ReadsArguments(read)
    ensures read(CommandLine(arguments), words) == Some(words + arguments)
  {
    var first := arguments[0];
    if |arguments| == 1 {
      assert words + [first] == words + arguments;
    } else {
      var text := CommandLine(arguments[1..]);
      ReadCommandLine(read, arguments[1..], words + [first]);
      ReadOneMore(read, first, text, arguments[1..], words);
      assert CommandLine(arguments) == Quoted(first) + (" " + text);
      assert arguments == [first] + arguments[1..];
    }
  }

  lemma ReadExact()
    ensures ReadsArguments(READ)
  {
    forall argument, text, words
      ensures READ(Quoted(argument) + (" " + text), words) == READ(text, words + [argument])
    {
      ReadFirst(argument, text, words);
    }
    forall argument, words
      ensures READ(Quoted(argument), words) == Some(words + [argument])
    {
      ReadLast(argument, words);
    }
  }

  /** Any argument list, whatever characters it holds, is read back as exactly those words. */
  lemma QuotingRoundTrip(arguments: seq<string>)
    requires |arguments| >= 1
    ensures CommandWords(CommandLine(arguments)) == Some(arguments)
  {
    ReadExact();
    ReadCommandLine(READ, arguments, []);
    assert [] + arguments == arguments;
  }

  // ----- Mount paths -----

  /** A character of a byte string. */
  type Byte = c: char | (c as int) < 256 witness ' '

  predicate IsOctal(c: Byte) {
    '0' <= c <= '7'
  }

  /** The byte an escape's three digits denote; values above 255 lose their ninth bit. */
  function OctalByte(a: Byte, b: Byte, c: Byte): Byte
    requires IsOctal(a) && IsOctal(b) && IsOctal(c)
  {
    var octal := (a as int - '0' as int) * 64 + (b as int - '0' as int) * 8 + (c as int - '0' as int);
    (octal % 256) as char
  }

  predicate EscapeAt(value: seq<Byte>, i: nat) {
    && i + 3 < |value| && value[i] == '\\'
    && IsOctal(value[i + 1]) && IsOctal(value[i + 2]) && IsOctal(value[i + 3])
  }

  function Unescaped(value: seq<Byte>): seq<Byte> {
    if value == [] then []
    else if EscapeAt(value, 0) then [OctalByte(value[1], value[2], value[3])] + Unescaped(value[4..])
    else [value[0]] + Unescaped(value[1..])
  }

  lemma EscapeStep(value: seq<Byte>, i: nat, octal: Byte)
    requires EscapeAt(value, i) && octal == OctalByte(value[i + 1], value[i + 2], value[i + 3])
    ensures Unescaped(value[i..]) == [octal] + Unescaped(value[i + 4..])
  {
    var rest := value[i..];
    assert EscapeAt(rest, 0) && rest[4..] == value[i + 4..];
    assert rest[1] == value[i + 1] && rest[2] == value[i + 2] && rest[3] == value[i + 3];
  }

  lemma PlainStep(value: seq<Byte>, i: nat)
    requires i < |value| && !EscapeAt(value, i)
    ensures Unescaped(value[i..]) == [value[i]] + Unescaped(value[i + 1..])
  {
    var rest := value[i..];
    assert !EscapeAt(rest, 0) && rest[1..] == value[i + 1..];
  }

  method UnescapeMount(value: seq<Byte>) returns (decoded: seq<Byte>)
    ensures decoded == Unescaped(value)
  {
    decoded := [];
    var i := 0;
    while i < |value|
      invariant 0 <= i <= |value|
      invariant decoded + Unescaped(value[i..]) == Unescaped(value)
    {
      if EscapeAt(value, i) {
        var octal := OctalByte(value[i + 1], value[i + 2], value[i + 3]);
        EscapeStep(value, i, octal);
        decoded := decoded + [octal];
        i := i + 3;
      } else {
        PlainStep(value, i);
        decoded := decoded + [value[i]];
      }
      i := i + 1;
    }
  }

  function OctalDigit(d: nat): Byte
    requires d < 8
  {
    (d + '0' as int) as char
  }

  /** The kernel's escaping: every character of the set becomes a backslash and three octal digits. */
  function Escaped(value: seq<Byte>, special: set<Byte>): seq<Byte> {
    if value == [] then []
    else
      var n := value[0] as int;
      (if value[0] in special then ['\\', OctalDigit(n / 64), OctalDigit(n / 8 % 8), OctalDigit(n % 8)] else [value[0]])
      + Escaped(value[1..], special)
  }

  /** No escape can begin by accident: the backslash, or else every octal digit, is itself escaped. */
  ghost predicate Unambiguous(special: set<Byte>) {
    '\\' in special || forall d: nat | d < 8 :: OctalDigit(d) in special
  }

  lemma OctalParts(n: nat)
    requires n < 256
    ensures n / 64 < 8 && n == n / 64 * 64 + n / 8 % 8 * 8 + n % 8
  {
    assert n / 8 / 8 == n / 64;
  }

  lemma OctalBytes(a: nat, b: nat, c: nat)
    requires a < 8 && b < 8 && c < 8
    ensures OctalByte(OctalDigit(a), OctalDigit(b), OctalDigit(c)) as int == (a * 64 + b * 8 + c) % 256
  {
  }

  /** The three digits of a byte denote that byte. */
  lemma OctalDigits(b: Byte)
    ensures b as int / 64 < 8
    ensures OctalByte(OctalDigit(b as int / 64), OctalDigit(b as int / 8 % 8), OctalDigit(b as int % 8)) == b
    ensures IsOctal(b) ==> b == OctalDigit(b as int - '0' as int)
  {
    OctalParts(b as int);
    OctalBytes(b as int / 64, b as int / 8 % 8, b as int % 8);
  }

  lemma {:induction false} UnescapeEscaped(value: seq<Byte>, special: set<Byte>)
    requires Unambiguous(special)
    ensures Unescaped(Escaped(value, special)) == value
    ensures '\\' !in special && value != [] ==> !IsOctal(Escaped(value, special)[0])
  {
    if value != [] {
      UnescapeEscaped(value[1..], special);
      OctalDigits(value[0]);
      var text, rest := Escaped(value, special), Escaped(value[1..], special);
      if value[0] in special {
        EscapeStep(text, 0, value[0]);
        assert text[4..] == rest;
      } else {
        assert text[1..] == rest;
        assert value[0] == '\\' && rest != [] ==> text[1] == rest[0];
        PlainStep(text, 0);
      }
      assert text[0..] == text;
    }
  }

  lemma {:induction false} UnescapedShrinks(value: seq<Byte>)
    ensures |Unescaped(value)| <= |value|
    ensures (exists i: nat :: EscapeAt(value, i)) ==> |Unescaped(value)| < |value|
    ensures (forall i: nat :: !EscapeAt(value, i)) ==> Unescaped(value) == value
  {
    if value != [] {
      if EscapeAt(value, 0) {
        UnescapedShrinks(value[4..]);
      } else {
        UnescapedShrinks(value[1..]);
        forall i: nat ensures i > 0 ==> (EscapeAt(value, i) <==> EscapeAt(value[1..], i - 1)) {
        }
        forall i: nat | EscapeAt(value[1..], i) ensures EscapeAt(value, i + 1) {
        }
      }
    }
  }

  lemma UnescapedDigitBreaks(special: set<Byte>, d: Byte)
    requires '\\' !in special && IsOctal(d) && d !in special
    ensures Unescaped(Escaped(['\\', d, d, d], special)) != ['\\', d, d, d]
  {
    var text: seq<Byte> := ['\\', d, d, d];
    var three, two, one: seq<Byte> := [d, d, d], [d, d], [d];
    assert text[1..] == three && three[1..] == two && two[1..] == one && one[1..] == [];
    assert Escaped(one, special) == one;
    assert Escaped(two, special) == two;
    assert Escaped(three, special) == three;
    assert Escaped(text, special) == text;
    assert EscapeAt(text, 0);
    UnescapedShrinks(text);
  }

  /**
    Unescaping undoes escaping for every text exactly when the escaped set includes the backslash (as
    the kernel's does) or, failing that, all eight octal digits.
   */
  lemma MountEscapesInvert(special: set<Byte>)
    ensures (forall value: seq<Byte> :: Unescaped(Escaped(value, special)) == value) <==> Unambiguous(special)
  {
    if Unambiguous(special) {
      forall value: seq<Byte> ensures Unescaped(Escaped(value, special)) == value {
        UnescapeEscaped(value, special);
      }
    } else {
      var d: nat :| d < 8 && OctalDigit(d) !in special;
      UnescapedDigitBreaks(special, OctalDigit(d));
    }
  }

  /** A text is unchanged exactly when it holds no complete escape, in particular without a backslash. */
  lemma UnescapeIdentity(value: seq<Byte>)
    ensures Unescaped(value) == value <==> forall i: nat :: !EscapeAt(value, i)
    ensures '\\' !in value ==> Unescaped(value) == value
  {
    UnescapedShrinks(value);
  }
}
