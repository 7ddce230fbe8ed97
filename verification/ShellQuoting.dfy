/** Commands written so that a shell reads back the same words. */
module ShellQuoting {
  import opened Text
  import opened Wrappers

  // ----- writing

  predicate IsSafe(c: char) {
    IsWordChar(c) || c in {'.', '/', ':', '@', '=', '+', '-'}
  }

  predicate AllSafe(value: string) {
    value != "" && forall c | c in value :: IsSafe(c)
  }

  /** Each single quote closes the quoted text, stands in double quotes, and opens it again. */
  function EscapeQuotes(value: string): string {
    if value == "" then ""
    else (if value[0] == '\'' then ['\'', '"', '\'', '"', '\''] else [value[0]]) + EscapeQuotes(value[1..])
  }

  function QuoteShellArgument(value: string): string {
    if AllSafe(value) then value else "'" + EscapeQuotes(value) + "'"
  }

  lemma {:induction false} EscapingKeeps(value: string)
    ensures |EscapeQuotes(value)| >= |value|
  {
    if value != "" { EscapingKeeps(value[1..]); }
  }

  /** A word stands bare exactly when it is not empty and has no other characters than these;
      any other stands between single quotes. */
  lemma StandsBareIff(value: string)
    ensures QuoteShellArgument(value) == value <==>
            value != "" && forall k :: 0 <= k < |value| ==>
              || 'a' <= value[k] <= 'z' || 'A' <= value[k] <= 'Z' || '0' <= value[k] <= '9'
              || value[k] in "_./:@=+-"
    ensures var quoted := QuoteShellArgument(value);
            quoted != value ==> |quoted| >= 2 && quoted[0] == '\'' && quoted[|quoted| - 1] == '\''
  {
    EscapingKeeps(value);
    forall c ensures IsSafe(c) <==>
      'a' <= c <= 'z' || 'A' <= c <= 'Z' || '0' <= c <= '9' || c in "_./:@=+-"
    {
    }
    assert AllSafe(value) <==> value != "" && forall k :: 0 <= k < |value| ==> IsSafe(value[k]);
  }

  function Join(words: seq<string>): string
    requires words != []
  {
    if |words| == 1 then QuoteShellArgument(words[0]) else QuoteShellArgument(words[0]) + " " + Join(words[1..])
  }

  function FormatCopyableCommand(command: string, args: seq<string>): string {
    Join([command] + args)
  }

  // ----- reading (sections 2.2 and 2.3 of the POSIX.1-2017 Shell Command Language)

  datatype Quoting = Bare | Single | Double

  /** Unquoted, these begin an operator, a substitution or a pattern. */
  predicate IsSpecial(c: char) {
    c in {'|', '&', ';', '<', '>', '(', ')', '$', '`', '\n', '*', '?', '['}
  }

  /** At the start of a word these begin a comment or a home directory. */
  predicate IsSpecialFirst(c: char) {
    c == '#' || c == '~'
  }

  predicate IsBlank(c: char) {
    c == ' ' || c == '\t'
  }

  function Finished(words: seq<string>, word: Option<string>): seq<string> {
    if word.Some? then words + [word.value] else words
  }

  function With(word: Option<string>, text: string): Option<string> {
    Some((if word.Some? then word.value else "") + text)
  }

  /** The words of a simple command with their quotes removed: those complete so far,
      the one being read, and how the text goes on. Nothing when the text is more than
      a simple command, or a quote is left open. */
  function Read(s: string, quoting: Quoting, words: seq<string>, word: Option<string>): Option<seq<string>>
    decreases |s|
  {
    match quoting
    case Bare =>
      if s == "" then Some(Finished(words, word))
      else if IsBlank(s[0]) then Read(s[1..], Bare, Finished(words, word), None)
      else if s[0] == '\'' then Read(s[1..], Single, words, With(word, ""))
      else if s[0] == '"' then Read(s[1..], Double, words, With(word, ""))
      else if s[0] == '\\' then
        if |s| < 2 then None
        else if s[1] == '\n' then Read(s[2..], Bare, words, word)
        else Read(s[2..], Bare, words, With(word, [s[1]]))
      else if IsSpecial(s[0]) || (word.None? && IsSpecialFirst(s[0])) then None
      else Read(s[1..], Bare, words, With(word, [s[0]]))
    case Single =>
      if s == "" then None
      else if s[0] == '\'' then Read(s[1..], Bare, words, word)
      else Read(s[1..], Single, words, With(word, [s[0]]))
    case Double =>
      if s == "" then None
      else if s[0] == '"' then Read(s[1..], Bare, words, word)
      else if s[0] == '$' || s[0] == '`' then None
      else if s[0] == '\\' && |s| >= 2 && s[1] in {'$', '`', '"', '\\'} then
        Read(s[2..], Double, words, With(word, [s[1]]))
      else if s[0] == '\\' && |s| >= 2 && s[1] == '\n' then Read(s[2..], Double, words, word)
      else Read(s[1..], Double, words, With(word, [s[0]]))
  }

  function ReadWords(s: string): Option<seq<string>> {
    Read(s, Bare, [], None)
  }

  // ----- what is written is read back

  lemma WithTwice(word: Option<string>, a: string, b: string)
    ensures With(With(word, a), b) == With(word, a + b)
  {
    var w := if word.Some? then word.value else "";
    assert w + a + b == w + (a + b);
  }

  lemma ReadSafeChar(c: char, tail: string, words: seq<string>, word: Option<string>)
    requires IsSafe(c)
    ensures Read([c] + tail, Bare, words, word) == Read(tail, Bare, words, With(word, [c]))
  {
    assert ([c] + tail)[1..] == tail;
  }

  lemma {:induction false} ReadSafe(value: string, rest: string, words: seq<string>, word: Option<string>)
    requires AllSafe(value)
    ensures Read(value + rest, Bare, words, word) == Read(rest, Bare, words, With(word, value))
    decreases |value|
  {
    hide Read, IsSafe;
    var c, more := value[0], value[1..];
    assert c in value && value == [c] + more;
    assert value + rest == [c] + (more + rest);
    ReadSafeChar(c, more + rest, words, word);
    if more == "" {
      assert more + rest == rest && value == [c];
    } else {
      assert forall d :: d in more ==> d in value;
      ReadSafe(more, rest, words, With(word, [c]));
      WithTwice(word, [c], more);
    }
  }

  /** Inside single quotes: the text is taken as it is, single quotes included. */
  lemma {:induction false} ReadEscaped(value: string, rest: string, words: seq<string>, word: Option<string>)
    requires word.Some?
    ensures Read(EscapeQuotes(value) + ("'" + rest), Single, words, word) == Read(rest, Bare, words, With(word, value))
    decreases |value|
  {
    hide Read, EscapeQuotes;
    EscapedParts(value, "'" + rest);
    if value == "" {
      ReadClosing(rest, words, word);
    } else {
      var c, more := value[0], value[1..];
      var tail := EscapeQuotes(more) + ("'" + rest);
      if c == '\'' { ReadEscapedQuote(tail, words, word); } else { ReadLiteral(c, tail, words, word); }
      ReadEscaped(more, rest, words, With(word, [c]));
      assert value == [c] + more;
      WithTwice(word, [c], more);
    }
  }

  lemma EscapedParts(value: string, tail: string)
    ensures EscapeQuotes(value) + tail ==
              if value == "" then tail
              else
                var first := if value[0] == '\'' then ['\'', '"', '\'', '"', '\''] else [value[0]];
                first + (EscapeQuotes(value[1..]) + tail)
  {
  }

  lemma ReadClosing(rest: string, words: seq<string>, word: Option<string>)
    requires word.Some?
    ensures Read("'" + rest, Single, words, word) == Read(rest, Bare, words, With(word, ""))
  {
    assert ("'" + rest)[1..] == rest;
    assert word.value + "" == word.value;
  }

  lemma ReadLiteral(c: char, tail: string, words: seq<string>, word: Option<string>)
    requires c != '\''
    ensures Read([c] + tail, Single, words, word) == Read(tail, Single, words, With(word, [c]))
  {
    assert ([c] + tail)[1..] == tail;
  }

  lemma ReadEscapedQuote(tail: string, words: seq<string>, word: Option<string>)
    requires word.Some?
    ensures Read(['\'', '"', '\'', '"', '\''] + tail, Single, words, word) == Read(tail, Single, words, With(word, "'"))
  {
    var closed := ['"', '\'', '"', '\''] + tail;
    assert (['\''] + closed)[1..] == closed && ['\'', '"', '\'', '"', '\''] + tail == ['\''] + closed;
    var inside := ['\'', '"', '\''] + tail;
    assert closed[1..] == inside;
    var after := ['"', '\''] + tail;
    assert inside[1..] == after;
    var open := ['\''] + tail;
    assert after[1..] == open && open[1..] == tail;
    assert With(word, "") == word by { assert word.value + "" == word.value; }
    var quoted := With(word, ['\'']);
    assert With(quoted, "") == quoted by { assert quoted.value + "" == quoted.value; }
    assert Read(open, Bare, words, quoted) == Read(tail, Single, words, quoted);
    assert Read(after, Double, words, quoted) == Read(open, Bare, words, quoted);
    assert Read(inside, Double, words, word) == Read(after, Double, words, quoted);
    assert Read(closed, Bare, words, word) == Read(inside, Double, words, word);
  }

  lemma ReadOpening(tail: string, words: seq<string>)
    ensures Read(['\''] + tail, Bare, words, None) == Read(tail, Single, words, Some(""))
  {
    assert (['\''] + tail)[1..] == tail;
    assert "" + "" == "";
  }

  lemma ReadQuoted(value: string, rest: string, words: seq<string>)
    ensures Read(QuoteShellArgument(value) + rest, Bare, words, None) == Read(rest, Bare, words, Some(value))
  {
    hide Read;
    assert "" + value == value;
    if AllSafe(value) {
      ReadSafe(value, rest, words, None);
    } else {
      var quoted := EscapeQuotes(value) + ("'" + rest);
      assert QuoteShellArgument(value) + rest == ['\''] + quoted;
      ReadOpening(quoted, words);
      ReadEscaped(value, rest, words, Some(""));
    }
  }

  lemma {:induction false} ReadJoined(todo: seq<string>, words: seq<string>)
    requires todo != []
    ensures Read(Join(todo), Bare, words, None) == Some(words + todo)
    decreases |todo|
  {
    hide QuoteShellArgument;
    var first := QuoteShellArgument(todo[0]);
    if |todo| == 1 {
      ReadQuoted(todo[0], "", words);
      assert first + "" == first && todo == [todo[0]];
    } else {
      var rest := " " + Join(todo[1..]);
      assert Join(todo) == first + rest;
      ReadQuoted(todo[0], rest, words);
      assert rest[1..] == Join(todo[1..]);
      ReadJoined(todo[1..], words + [todo[0]]);
      assert words + [todo[0]] + todo[1..] == words + todo;
    }
  }

  /** Whatever the command and its arguments contain, the copied text is read back as
      exactly those words. */
  lemma CopiedCommandReadsBack(command: string, args: seq<string>)
    ensures ReadWords(FormatCopyableCommand(command, args)) == Some([command] + args)
  {
    ReadJoined([command] + args, []);
    assert [] + ([command] + args) == [command] + args;
  }
}
