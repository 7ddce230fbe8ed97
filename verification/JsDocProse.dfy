/** The prose of a documentation comment: paragraphs and lists built line by line, up to
    the first block tag. Whatever is joined and flattened on the way, the words remain. */
module JsDocProse {
  import opened Text
  import opened Wrappers

  // ----- words

  function WordLength(s: string): (n: nat)
    ensures n <= |s| && (forall k :: 0 <= k < n ==> !IsSpace(s[k])) && (n < |s| ==> IsSpace(s[n]))
  {
    if s == "" || IsSpace(s[0]) then 0 else 1 + WordLength(s[1..])
  }

  /** The maximal runs of characters that are not spaces. */
  function Words(s: string): seq<string>
    decreases |s|
  {
    if s == "" then []
    else if IsSpace(s[0]) then Words(s[1..])
    else [s[..WordLength(s)]] + Words(s[WordLength(s)..])
  }

  function WordsOf(lines: seq<string>): seq<string> {
    if lines == [] then [] else Words(lines[0]) + WordsOf(lines[1..])
  }

  lemma WordLengthIs(s: string, n: nat)
    requires n <= |s| && (forall k :: 0 <= k < n ==> !IsSpace(s[k])) && (n < |s| ==> IsSpace(s[n]))
    ensures WordLength(s) == n
  {
    hide IsSpace;
  }

  lemma WordsFirst(s: string, n: nat)
    requires 0 < n <= |s| && (forall k :: 0 <= k < n ==> !IsSpace(s[k])) && (n < |s| ==> IsSpace(s[n]))
    ensures Words(s) == [s[..n]] + Words(s[n..])
  {
    WordLengthIs(s, n);
  }

  lemma WordsSpace(c: char, s: string)
    requires IsSpace(c)
    ensures Words([c] + s) == Words(s)
  {
    assert ([c] + s)[1..] == s;
  }

  /** A space between two texts keeps their words apart. */
  lemma {:induction false} WordsJoined(a: string, c: char, b: string)
    requires IsSpace(c)
    ensures Words(a + [c] + b) == Words(a) + Words(b)
    decreases |a|
  {
    hide IsSpace, Words;
    var s := a + [c] + b;
    if a == "" {
      NoWords();
      assert s == [c] + b;
      WordsSpace(c, b);
      assert [] + Words(b) == Words(b);
    } else if IsSpace(a[0]) {
      assert s == [a[0]] + (a[1..] + [c] + b) && a == [a[0]] + a[1..];
      WordsSpace(a[0], a[1..] + [c] + b);
      WordsSpace(a[0], a[1..]);
      WordsJoined(a[1..], c, b);
    } else {
      var n := WordLength(a);
      assert n > 0;
      WordsFirst(a, n);
      assert s[n..] == a[n..] + [c] + b && s[..n] == a[..n];
      assert n < |s| ==> s[n] == if n < |a| then a[n] else c;
      WordsFirst(s, n);
      WordsJoined(a[n..], c, b);
      assert [a[..n]] + (Words(a[n..]) + Words(b)) == [a[..n]] + Words(a[n..]) + Words(b);
    }
  }

  lemma NoWords()
    ensures Words("") == []
  {
  }

  /** Joining by spaces or line feeds keeps the words. */
  lemma {:induction false} WordsOfJoin(parts: seq<string>, separator: string)
    requires separator == " " || separator == "\n" || separator == "\n\n"
    ensures Words(Join(parts, separator)) == WordsOf(parts)
    decreases |parts|
  {
    hide Words;
    if parts == [] {
      NoWords();
    } else if |parts| == 1 {
      assert WordsOf(parts[1..]) == [];
      assert Words(parts[0]) + [] == Words(parts[0]);
    } else {
      var rest := Join(parts[1..], separator);
      WordsOfJoin(parts[1..], separator);
      if |separator| == 1 {
        WordsJoined(parts[0], separator[0], rest);
      } else {
        assert parts[0] + separator + rest == parts[0] + ['\n'] + (['\n'] + rest);
        WordsJoined(parts[0], '\n', ['\n'] + rest);
        WordsSpace('\n', rest);
      }
    }
  }

  /** `replace(/\s+/g, ' ')`: each run of spaces becomes one. */
  function Collapse(s: string): string
    decreases |s|
  {
    if s == "" then ""
    else if IsSpace(s[0]) then " " + Collapse(s[AfterSpaces(s, 0)..])
    else [s[0]] + Collapse(s[1..])
  }

  lemma {:induction false} WordsAfterSpaces(s: string, n: nat)
    requires n <= |s| && forall k :: 0 <= k < n ==> IsSpace(s[k])
    ensures Words(s[n..]) == Words(s)
    decreases n
  {
    hide IsSpace;
    if n > 0 {
      assert s == [s[0]] + s[1..];
      WordsSpace(s[0], s[1..]);
      WordsAfterSpaces(s[1..], n - 1);
      assert s[1..][n - 1..] == s[n..];
    } else {
      assert s[0..] == s;
    }
  }

  lemma CollapseWord(s: string, n: nat)
    requires n <= |s| && forall k :: 0 <= k < n ==> !IsSpace(s[k])
    ensures Collapse(s) == s[..n] + Collapse(s[n..])
    decreases n
  {
    hide IsSpace, AfterSpaces;
    if n > 0 {
      CollapseWord(s[1..], n - 1);
      var rest := Collapse(s[n..]);
      assert s[1..][n - 1..] == s[n..] && [s[0]] + s[1..][..n - 1] == s[..n];
      assert [s[0]] + (s[1..][..n - 1] + rest) == [s[0]] + s[1..][..n - 1] + rest;
    } else {
      assert s[0..] == s;
    }
  }

  lemma {:induction false} WordsOfCollapse(s: string)
    ensures Words(Collapse(s)) == Words(s)
    decreases |s|
  {
    hide Words;
    if s != "" {
      if IsSpace(s[0]) {
        var n := AfterSpaces(s, 0);
        WordsOfCollapse(s[n..]);
        WordsAfterSpaces(s, n);
        WordsSpace(' ', Collapse(s[n..]));
      } else {
        var n := WordLength(s);
        CollapseWord(s, n);
        WordsOfCollapse(s[n..]);
        WordsFirst(s, n);
        CollapseStart(s[n..]);
        var now := Collapse(s);
        assert now[..n] == s[..n] && now[n..] == Collapse(s[n..]);
        assert n < |now| ==> now[n] == Collapse(s[n..])[0];
        WordsFirst(now, n);
      }
    }
  }

  lemma CollapseStart(s: string)
    requires s != "" ==> IsSpace(s[0])
    ensures Collapse(s) != "" ==> IsSpace(Collapse(s)[0])
  {
  }

  function TrimEnd(s: string): string {
    if s != "" && IsSpace(s[|s| - 1]) then TrimEnd(s[..|s| - 1]) else s
  }

  function Trim(s: string): string {
    TrimEnd(s[AfterSpaces(s, 0)..])
  }

  lemma {:induction false} WordsOfTrimEnd(s: string)
    ensures Words(TrimEnd(s)) == Words(s)
  {
    hide Words;
    if s != "" && IsSpace(s[|s| - 1]) {
      var init, c := s[..|s| - 1], s[|s| - 1];
      WordsOfTrimEnd(init);
      assert s == init + [c] + "";
      WordsJoined(init, c, "");
      NoWords();
      assert Words(init) + [] == Words(init);
    }
  }

  /** The `join` of the builder: one line of single spaces. */
  function Flatten(parts: seq<string>): string {
    Trim(Collapse(Join(parts, " ")))
  }

  lemma WordsOfFlatten(parts: seq<string>)
    ensures Words(Flatten(parts)) == WordsOf(parts)
  {
    hide Words, Collapse, Join, IsSpace;
    var joined := Join(parts, " ");
    WordsOfJoin(parts, " ");
    WordsOfCollapse(joined);
    var collapsed := Collapse(joined);
    WordsAfterSpaces(collapsed, AfterSpaces(collapsed, 0));
    WordsOfTrimEnd(collapsed[AfterSpaces(collapsed, 0)..]);
  }

  // ----- what a flattened text is

  lemma EndsInWord(words: seq<string>)
    requires words != [] && forall w :: w in words ==> w != "" && forall k :: 0 <= k < |w| ==> !IsSpace(w[k])
    ensures var text := Join(words, " "); text != "" && !IsSpace(text[0]) && !IsSpace(text[|text| - 1])
  {
    hide IsSpace;
    assert words[0] in words;
    if |words| > 1 { EndsInWord(words[1..]); }
  }

  lemma {:induction false} WordsAreSolid(s: string)
    ensures forall w :: w in Words(s) ==> w != "" && forall k :: 0 <= k < |w| ==> !IsSpace(w[k])
    decreases |s|
  {
    hide IsSpace;
    if s != "" {
      if IsSpace(s[0]) {
        WordsAreSolid(s[1..]);
      } else {
        WordsAreSolid(s[WordLength(s)..]);
      }
    }
  }

  lemma JoinFirst(word: string, words: seq<string>)
    ensures Join([word] + words, " ") == word + if words == [] then "" else " " + Join(words, " ")
  {
    assert ([word] + words)[1..] == words;
  }

  lemma CollapsedStart(s: string)
    ensures var n := AfterSpaces(s, 0); Collapse(s) == (if n > 0 then " " else "") + Collapse(s[n..])
  {
    assert s[0..] == s;
  }

  function LastSpace(s: string): string {
    if s != "" && IsSpace(s[|s| - 1]) then " " else ""
  }

  /** From a word on, collapsing puts one space after each word but the last, and behind
      that one where the text ends in space. */
  lemma {:induction false} CollapsedWords(s: string)
    requires s != "" ==> !IsSpace(s[0])
    ensures Collapse(s) == Join(Words(s), " ") + LastSpace(s)
    decreases |s|
  {
    if s == "" {
      NoWords();
    } else {
      hide IsSpace, Words, Collapse, Join, LastSpace;
      var n := WordLength(s);
      var word, rest := s[..n], s[n..];
      assert n > 0 && s == word + rest;
      CollapseWord(s, n);
      WordsFirst(s, n);
      JoinFirst(word, Words(rest));
      if rest == "" {
        NoWords();
        EmptyJoin();
        NoLastSpace(word);
        assert word + "" == word;
      } else {
        CollapsedRest(rest);
        var m := AfterSpaces(rest, 0);
        var more := rest[m..];
        CollapsedWords(more);
        if more == "" {
          NoWords();
          SpaceBehind(word, rest);
          assert word + "" == word;
        } else {
          WordsFirst(more, WordLength(more));
          WordsBehind(word, rest, more);
        }
      }
    }
  }

  lemma CollapsedRest(rest: string)
    requires rest != "" && IsSpace(rest[0])
    ensures var more := rest[AfterSpaces(rest, 0)..];
            Collapse(rest) == " " + Collapse(more) && Words(rest) == Words(more) && |more| < |rest|
  {
    hide IsSpace, Words, Collapse;
    CollapsedStart(rest);
    WordsAfterSpaces(rest, AfterSpaces(rest, 0));
  }

  lemma NoLastSpace(word: string)
    requires word != "" && !IsSpace(word[|word| - 1])
    ensures LastSpace(word) == ""
  {
  }

  /** Only space is left behind the word. */
  lemma SpaceBehind(word: string, rest: string)
    requires rest != "" && IsSpace(rest[|rest| - 1]) && Collapse(rest) == " " + Collapse("")
    ensures word + Collapse(rest) == word + LastSpace(word + rest)
  {
    hide Collapse, LastSpace;
    EmptyJoin();
    EndsInSpace(word + rest);
    assert " " + "" == " ";
  }

  /** More words are left behind it. */
  lemma WordsBehind(word: string, rest: string, more: string)
    requires more != "" && |more| <= |rest| && rest[|rest| - |more|..] == more
    requires Collapse(rest) == " " + (Join(Words(more), " ") + LastSpace(more))
    ensures word + Collapse(rest) == (word + (" " + Join(Words(more), " "))) + LastSpace(word + rest)
  {
    hide Words, Collapse, Join, LastSpace;
    assert (word + rest)[|word + rest| - 1] == more[|more| - 1];
    SameLastSpace(word + rest, more);
    SpacedOut(word, Join(Words(more), " "), LastSpace(more));
  }

  lemma SameLastSpace(s: string, more: string)
    ensures s != "" && more != "" && s[|s| - 1] == more[|more| - 1] ==> LastSpace(s) == LastSpace(more)
  {
  }

  lemma EndsInSpace(s: string)
    requires s != "" && IsSpace(s[|s| - 1])
    ensures LastSpace(s) == " "
  {
  }

  lemma SpacedOut(word: string, text: string, last: string)
    ensures word + (" " + (text + last)) == (word + (" " + text)) + last
  {
  }

  lemma EmptyJoin()
    ensures Join([], " ") == "" && Collapse("") == ""
  {
  }

  lemma {:induction false} TailTrimmed(text: string, tail: string)
    requires forall k :: 0 <= k < |tail| ==> IsSpace(tail[k])
    requires text != "" ==> !IsSpace(text[|text| - 1])
    ensures TrimEnd(text + tail) == text
    decreases |tail|
  {
    hide IsSpace;
    if tail == "" {
      assert text + tail == text;
    } else {
      TailTrimmed(text, tail[..|tail| - 1]);
      assert (text + tail)[..|text + tail| - 1] == text + tail[..|tail| - 1];
    }
  }

  lemma Trimmed(text: string, before: string, after: string)
    requires text == "" || (!IsSpace(text[0]) && !IsSpace(text[|text| - 1]))
    requires AllSpaces(before) && AllSpaces(after) && (text == "" ==> after == "")
    ensures Trim(before + (text + after)) == text
  {
    hide IsSpace, AfterSpaces, TrimEnd;
    var s := before + (text + after);
    assert s[|before|..] == text + after;
    assert |before| < |s| ==> s[|before|] == text[0];
    AfterSpacesIs(s, 0, |before|);
    TailTrimmed(text, after);
  }

  lemma SpacesAround(s: string)
    ensures AllSpaces("") && AllSpaces(" ") && AllSpaces(LastSpace(s))
  {
  }

  /** Flattened text is its words with a space between each two. */
  lemma FlattenIsWords(parts: seq<string>)
    ensures Flatten(parts) == Join(WordsOf(parts), " ")
  {
    hide Words, Collapse, Trim, IsSpace;
    var s := Join(parts, " ");
    WordsOfJoin(parts, " ");
    var n := AfterSpaces(s, 0);
    WordsAfterSpaces(s, n);
    CollapsedStart(s);
    CollapsedWords(s[n..]);
    WordsAreSolid(s);
    if s[n..] == "" {
      NoWords();
      EmptyJoin();
    } else {
      WordsFirst(s[n..], WordLength(s[n..]));
      EndsInWord(Words(s));
    }
    SpacesAround(s[n..]);
    Trimmed(Join(Words(s), " "), if n > 0 then " " else "", LastSpace(s[n..]));
  }

  // ----- lines

  const MODES: set<string> := {"emit", "waterfall", "parallel", "serial", "bail"}

  /** Leading spaces, a star and one space more go, and trailing spaces. */
  function StripLine(line: string): string {
    var i := AfterSpaces(line, 0);
    var j := if i < |line| && line[i] == '*' then i + 1 else i;
    TrimEnd(line[(if j < |line| && IsSpace(line[j]) then j + 1 else j)..])
  }

  /** What precedes the text of a comment line goes: spaces, a star and one space; without a
      star, all spaces. So do the spaces behind it. */
  lemma StripLineOf(indent: string, text: string, tail: string)
    requires forall k :: 0 <= k < |indent| ==> IsSpace(indent[k])
    requires forall k :: 0 <= k < |tail| ==> IsSpace(tail[k])
    requires text != "" ==> !IsSpace(text[|text| - 1])
    ensures text != "" && !IsSpace(text[0]) && text[0] != '*' ==> StripLine(indent + text + tail) == text
    ensures text != "" && !IsSpace(text[0]) ==> StripLine(indent + "*" + text + tail) == text
    ensures StripLine(indent + "* " + text + tail) == text
  {
    hide IsSpace, TrimEnd;
    hide AfterSpaces;
    NoSpaceIn();
    TailTrimmed(text, tail);
    var plain, starred, spaced := indent + text + tail, indent + "*" + text + tail, indent + "* " + text + tail;
    assert plain[|indent|..] == text + tail;
    assert starred[|indent| + 1..] == text + tail && starred[|indent|] == '*';
    assert spaced[|indent| + 2..] == text + tail && spaced[|indent|] == '*' && spaced[|indent| + 1] == ' ';
    AfterSpacesIs(starred, 0, |indent|);
    AfterSpacesIs(spaced, 0, |indent|);
    if text != "" && !IsSpace(text[0]) {
      assert plain[|indent|] == text[0] && starred[|indent| + 1] == text[0];
      AfterSpacesIs(plain, 0, |indent|);
    }
  }

  lemma NoSpaceIn()
    ensures !IsSpace('*') && IsSpace(' ')
  {
  }

  function TagLine(line: string): string {
    line[AfterSpaces(line, 0)..]
  }

  predicate IsTag(line: string) {
    Reads(TagLine(line), 0, "@")
  }

  /** `@mode` as a whole word. */
  predicate NamesMode(line: string) {
    var tag := TagLine(line);
    Reads(tag, 0, "@mode") && (|tag| > 5 ==> !IsWordChar(tag[5]))
  }

  /** The mode that a well-formed `@mode` line gives. */
  function ModeOf(line: string): Option<string> {
    var tag := TagLine(line);
    if !NamesMode(line) then None
    else
      var value := Trim(tag[5..]);
      if |tag| > 5 && IsSpace(tag[5]) && value in MODES then Some(value) else None
  }

  predicate IsItem(line: string) {
    |line| >= 2 && line[0] == '-' && IsSpace(line[1])
  }

  // ----- the kinds of lines, written out

  ghost predicate IsTagLine(line: string, indent: string, rest: string) {
    AllSpaces(indent) && line == indent + ("@" + rest)
  }

  ghost predicate NamesModeLine(line: string, indent: string, rest: string) {
    AllSpaces(indent) && line == indent + ("@mode" + rest) && (rest != "" ==> !IsWordChar(rest[0]))
  }

  ghost predicate GivesMode(line: string, indent: string, gap: string, mode: string, tail: string) {
    && AllSpaces(indent) && AllSpaces(gap) && AllSpaces(tail) && gap != "" && mode in MODES
    && line == indent + ("@mode" + (gap + (mode + tail)))
  }

  /** Behind spaces, the tag line begins. */
  lemma TagLineOf(indent: string, tag: string)
    requires AllSpaces(indent) && tag != "" && !IsSpace(tag[0])
    ensures TagLine(indent + tag) == tag
  {
    hide IsSpace;
    var line := indent + tag;
    assert line[|indent|] == tag[0] && line[|indent|..] == tag;
    AfterSpacesIs(line, 0, |indent|);
  }

  lemma IndentOf(line: string) returns (indent: string)
    ensures AllSpaces(indent) && line == indent + TagLine(line)
  {
    indent := line[..AfterSpaces(line, 0)];
  }

  lemma ReadsPrefix(s: string, t: string)
    ensures Reads(s, 0, t) <==> t <= s
  {
    if Reads(s, 0, t) {
      assert forall k :: 0 <= k < |t| ==> s[k] == s[0 + k] == t[k];
      assert s[..|t|] == t;
    }
  }

  /** A tag line begins, behind spaces, with an at sign. */
  lemma TagLineIff(line: string)
    ensures IsTag(line) <==> exists indent, rest :: IsTagLine(line, indent, rest)
  {
    hide IsSpace, Reads, AfterSpaces;
    AtIsNoSpace();
    ReadsPrefix(TagLine(line), "@");
    if IsTag(line) {
      var indent := IndentOf(line);
      assert IsTagLine(line, indent, TagLine(line)[1..]);
    }
    if indent, rest :| IsTagLine(line, indent, rest) {
      TagLineOf(indent, "@" + rest);
    }
  }

  lemma AtIsNoSpace()
    ensures !IsSpace('@') && "@mode"[0] == '@'
  {
  }

  /** It names the mode when the word behind the sign is `mode`. */
  lemma NamesModeIff(line: string)
    ensures NamesMode(line) <==> exists indent, rest :: NamesModeLine(line, indent, rest)
  {
    hide IsSpace, Reads, AfterSpaces, IsWordChar;
    AtIsNoSpace();
    ReadsPrefix(TagLine(line), "@mode");
    if NamesMode(line) {
      var indent := IndentOf(line);
      var rest := TagLine(line)[5..];
      assert TagLine(line) == "@mode" + rest;
      assert NamesModeLine(line, indent, rest);
    }
    if indent, rest :| NamesModeLine(line, indent, rest) {
      TagLineOf(indent, "@mode" + rest);
    }
  }

  lemma {:induction false} TrimEndSplits(s: string) returns (tail: string)
    ensures AllSpaces(tail) && s == TrimEnd(s) + tail
  {
    tail := "";
    if s != "" && IsSpace(s[|s| - 1]) {
      var before := TrimEndSplits(s[..|s| - 1]);
      tail := before + [s[|s| - 1]];
      assert s == s[..|s| - 1] + [s[|s| - 1]];
    }
  }

  lemma ModeIsAWord(mode: string)
    requires mode in MODES
    ensures mode != "" && !IsSpace(mode[0]) && !IsSpace(mode[|mode| - 1])
  {
  }

  lemma SpaceIsNoWord(c: char)
    requires IsSpace(c)
    ensures !IsWordChar(c)
  {
  }

  lemma TrimSplits(s: string) returns (before: string, after: string)
    ensures AllSpaces(before) && AllSpaces(after) && s == before + (Trim(s) + after)
    ensures s != "" && IsSpace(s[0]) ==> before != ""
  {
    hide IsSpace, AfterSpaces, TrimEnd;
    before := s[..AfterSpaces(s, 0)];
    after := TrimEndSplits(s[|before|..]);
  }

  lemma ModeTaken(line: string, mode: string) returns (indent: string, gap: string, tail: string)
    requires ModeOf(line) == Some(mode)
    ensures GivesMode(line, indent, gap, mode, tail)
  {
    hide IsSpace, Reads, TagLine, Trim, IsWordChar, AllSpaces;
    var tag := TagLine(line);
    ReadsPrefix(tag, "@mode");
    indent := IndentOf(line);
    gap, tail := TrimSplits(tag[5..]);
    assert tag == "@mode" + tag[5..];
  }

  lemma ModeGiven(line: string, indent: string, gap: string, mode: string, tail: string)
    requires GivesMode(line, indent, gap, mode, tail)
    ensures ModeOf(line) == Some(mode)
  {
    hide IsSpace, Reads, AfterSpaces, IsWordChar, TrimEnd, ModeOf;
    AtIsNoSpace();
    var rest := gap + (mode + tail);
    TagLineOf(indent, "@mode" + rest);
    ReadsPrefix("@mode" + rest, "@mode");
    SpaceIsNoWord(gap[0]);
    ModeIsAWord(mode);
    assert ("@mode" + rest)[5..] == rest && ("@mode" + rest)[5] == gap[0];
    Trimmed(mode, gap, tail);
    ModeRead(line, rest, mode);
  }

  lemma ModeRead(line: string, rest: string, mode: string)
    requires TagLine(line) == "@mode" + rest && Reads(TagLine(line), 0, "@mode") && Trim(rest) == mode && mode in MODES
    requires rest != "" && IsSpace(rest[0]) && !IsWordChar(rest[0])
    ensures ModeOf(line) == Some(mode)
  {
    hide IsSpace, Reads, TagLine, Trim, IsWordChar;
    assert ("@mode" + rest)[5..] == rest;
  }

  /** A line gives a mode exactly when it is the tag, spaces and one of the five modes. */
  lemma ModeIff(line: string, mode: string)
    ensures ModeOf(line) == Some(mode) <==> exists indent, gap, tail :: GivesMode(line, indent, gap, mode, tail)
  {
    hide ModeOf, GivesMode;
    if ModeOf(line) == Some(mode) { var indent, gap, tail := ModeTaken(line, mode); }
    if indent, gap, tail :| GivesMode(line, indent, gap, mode, tail) { ModeGiven(line, indent, gap, mode, tail); }
  }

  /** An item begins with a dash and a space. */
  lemma ItemIff(line: string)
    ensures IsItem(line) <==> exists c, rest :: IsSpace(c) && line == "-" + [c] + rest
  {
    if IsItem(line) { assert line == "-" + [line[1]] + line[2..]; }
  }

  // ----- the builder

  datatype Builder = Builder(mode: Option<string>, hasMode: bool, inTags: bool, blocks: seq<string>,
                             para: seq<string>, list: seq<string>, item: seq<string>)

  function FlushItem(b: Builder): Builder {
    b.(list := if b.item != [] then b.list + [Flatten(b.item)] else b.list, item := [])
  }

  function FlushList(b: Builder): Builder {
    var f := FlushItem(b);
    f.(blocks := if f.list != [] then f.blocks + [Join(f.list, "\n")] else f.blocks, list := [])
  }

  function FlushPara(b: Builder): Builder {
    var f := FlushList(b);
    f.(blocks := if f.para != [] then f.blocks + [Flatten(f.para)] else f.blocks, para := [])
  }

  function AddLine(b: Builder, line: string): Builder {
    if ModeOf(line).Some? then FlushPara(b).(mode := ModeOf(line), hasMode := true, inTags := true)
    else if NamesMode(line) then FlushPara(b).(hasMode := true, inTags := true)
    else if IsTag(line) then FlushPara(b).(inTags := true)
    else if b.inTags then b
    else if Trim(line) == "" then FlushPara(b)
    else if IsItem(line) then
      var f := FlushItem(b);
      f.(blocks := if f.para != [] then f.blocks + [Flatten(f.para)] else f.blocks, para := [], item := [line])
    else if b.item != [] then b.(item := b.item + [line])
    else b.(para := b.para + [line])
  }

  function AddLines(b: Builder, lines: seq<string>): Builder
    decreases |lines|
  {
    if lines == [] then b else AddLine(AddLines(b, lines[..|lines| - 1]), lines[|lines| - 1])
  }

  const START := Builder(None, false, false, [], [], [], [])

  // ----- nothing is lost

  /** The lines before the first block tag. */
  function ProseLines(lines: seq<string>): seq<string> {
    if lines == [] || IsTag(lines[0]) then [] else [lines[0]] + ProseLines(lines[1..])
  }

  /** Text pends in a paragraph or in a list, never in both; and a list in the making
      has an item in the making. */
  ghost predicate Pending(b: Builder) {
    && (b.para != [] ==> b.list == [] && b.item == [])
    && (b.list != [] ==> b.item != [])
  }

  /** All words taken in so far, in the order in which they will come out. */
  ghost function Taken(b: Builder): seq<string> {
    WordsOf(b.blocks) + WordsOf(b.list) + WordsOf(b.item) + WordsOf(b.para)
  }

  lemma {:induction false} WordsOfBoth(a: seq<string>, b: seq<string>)
    ensures WordsOf(a + b) == WordsOf(a) + WordsOf(b)
  {
    hide Words;
    if a == [] {
      assert a + b == b;
      assert [] + WordsOf(b) == WordsOf(b);
    } else {
      WordsOfBoth(a[1..], b);
      assert (a + b)[1..] == a[1..] + b;
      assert Words(a[0]) + (WordsOf(a[1..]) + WordsOf(b)) == Words(a[0]) + WordsOf(a[1..]) + WordsOf(b);
    }
  }

  lemma WordsOfOne(s: string)
    ensures WordsOf([s]) == Words(s)
  {
    hide Words;
    assert WordsOf([s][1..]) == [];
    assert Words(s) + [] == Words(s);
  }

  lemma Regroup(a: seq<string>, b: seq<string>, c: seq<string>)
    ensures a + (b + c) == a + b + c
  {
  }

  lemma FlushItemKeeps(b: Builder)
    requires Pending(b)
    ensures var f := FlushItem(b); Taken(f) == Taken(b) && f.item == [] && (f.para != [] ==> f.list == [])
  {
    hide Words, Flatten;
    if b.item != [] {
      WordsOfBoth(b.list, [Flatten(b.item)]);
      WordsOfOne(Flatten(b.item));
      WordsOfFlatten(b.item);
      Regroup(WordsOf(b.blocks), WordsOf(b.list), WordsOf(b.item));
      var f := FlushItem(b);
      assert WordsOf(f.blocks) + WordsOf(f.list) == WordsOf(b.blocks) + WordsOf(b.list) + WordsOf(b.item);
      assert WordsOf(f.blocks) + WordsOf(f.list) + [] == WordsOf(f.blocks) + WordsOf(f.list);
    }
  }

  lemma FlushListKeeps(b: Builder)
    requires Pending(b)
    ensures var f := FlushList(b); Taken(f) == Taken(b) && f.item == [] && f.list == [] && f.para == b.para
  {
    hide Words, Flatten, Join;
    FlushItemKeeps(b);
    var f := FlushItem(b);
    if f.list != [] {
      WordsOfBoth(f.blocks, [Join(f.list, "\n")]);
      WordsOfOne(Join(f.list, "\n"));
      WordsOfJoin(f.list, "\n");
      var g := FlushList(b);
      assert WordsOf(g.blocks) == WordsOf(f.blocks) + WordsOf(f.list);
      assert WordsOf(g.blocks) + [] == WordsOf(g.blocks);
    }
  }

  lemma FlushParaKeeps(b: Builder)
    requires Pending(b)
    ensures var f := FlushPara(b);
            Taken(f) == Taken(b) == WordsOf(f.blocks) && f.item == [] && f.list == [] && f.para == []
  {
    hide Words, Flatten, Join;
    FlushListKeeps(b);
    var f := FlushList(b);
    assert WordsOf(f.blocks) + [] + [] == WordsOf(f.blocks);
    WordsOfBoth(f.blocks, [Flatten(f.para)]);
    WordsOfOne(Flatten(f.para));
    WordsOfFlatten(f.para);
    var g := FlushPara(b);
    assert WordsOf(g.blocks) + [] + [] + [] == WordsOf(g.blocks);
    assert WordsOf(f.blocks) + [] == WordsOf(f.blocks);
  }

  lemma BlankHasNoWords(line: string)
    requires Trim(line) == ""
    ensures Words(line) == []
  {
    hide Words, IsSpace;
    WordsOfTrimEnd(line[AfterSpaces(line, 0)..]);
    WordsAfterSpaces(line, AfterSpaces(line, 0));
    NoWords();
  }

  /** A line before any tag adds its words at the end. */
  lemma ProseLineAdds(b: Builder, line: string)
    requires Pending(b) && !b.inTags && !IsTag(line)
    ensures var n := AddLine(b, line); Pending(n) && !n.inTags && Taken(n) == Taken(b) + Words(line)
  {
    hide Words, Flatten, Join, Trim;
    NotAMode(line);
    if Trim(line) == "" {
      FlushParaKeeps(b);
      BlankHasNoWords(line);
      assert Taken(b) + [] == Taken(b);
    } else if IsItem(line) {
      ItemStarts(b, line);
    } else if b.item != [] {
      WordsOfBoth(b.item, [line]);
      WordsOfOne(line);
      Regroup(WordsOf(b.blocks) + WordsOf(b.list), WordsOf(b.item), Words(line));
      assert Taken(b) == WordsOf(b.blocks) + WordsOf(b.list) + WordsOf(b.item);
    } else {
      WordsOfBoth(b.para, [line]);
      WordsOfOne(line);
      Regroup(WordsOf(b.blocks) + WordsOf(b.list) + WordsOf(b.item), WordsOf(b.para), Words(line));
    }
  }

  lemma ModeIsATag(tag: string)
    ensures Reads(tag, 0, "@mode") ==> Reads(tag, 0, "@")
  {
    var full := "@mode";
    assert full[0] == '@';
    if Reads(tag, 0, full) { assert tag[0 + 0] == full[0]; }
  }

  lemma NotAMode(line: string)
    requires !IsTag(line)
    ensures !NamesMode(line) && ModeOf(line).None?
  {
    ModeIsATag(TagLine(line));
  }

  /** An item starts: a pending paragraph goes out first. */
  lemma ItemStarts(b: Builder, line: string)
    requires Pending(b)
    ensures var f := FlushItem(b);
            var n := f.(blocks := if f.para != [] then f.blocks + [Flatten(f.para)] else f.blocks, para := [],
              item := [line]);
            Pending(n) && Taken(n) == Taken(b) + Words(line)
  {
    hide Words, Flatten, Join;
    FlushItemKeeps(b);
    var f := FlushItem(b);
    WordsOfBoth(f.blocks, [Flatten(f.para)]);
    WordsOfOne(Flatten(f.para));
    WordsOfFlatten(f.para);
    WordsOfOne(line);
    var blocks, list, para := WordsOf(f.blocks), WordsOf(f.list), WordsOf(f.para);
    assert Taken(f) == blocks + list + para by { assert blocks + list + [] == blocks + list; }
    if f.para != [] {
      assert f.list == [] && list == [];
      assert blocks + [] + para == blocks + para && blocks + para + [] == blocks + para;
    } else {
      assert blocks + list + [] == blocks + list;
    }
    var now := if f.para != [] then blocks + para else blocks;
    assert now + list + Words(line) + [] == now + list + Words(line);
  }

  /** From the first tag on only the flush of what was pending is left. */
  lemma TagLineAdds(b: Builder, line: string)
    requires Pending(b) && (b.inTags || IsTag(line))
    ensures var n := AddLine(b, line); Pending(n) && n.inTags && Taken(n) == Taken(b)
  {
    hide Words, Flatten, Join, Trim, WordsOf;
    if IsTag(line) { FlushParaKeeps(b); } else { NotAMode(line); }
    hide FlushPara;
  }

  predicate HasTag(lines: seq<string>) {
    lines != [] && (IsTag(lines[0]) || HasTag(lines[1..]))
  }

  lemma {:induction false} ProseLinesGrow(init: seq<string>, last: string)
    ensures HasTag(init + [last]) <==> HasTag(init) || IsTag(last)
    ensures ProseLines(init + [last]) == ProseLines(init) + if HasTag(init + [last]) then [] else [last]
  {
    hide IsTag;
    var lines := init + [last];
    if init == [] {
      assert lines == [last] && lines[1..] == [];
    } else {
      assert lines[1..] == init[1..] + [last];
      ProseLinesGrow(init[1..], last);
    }
  }

  /** What has been taken in is what the lines before the first tag say. */
  lemma {:induction false} LinesTaken(lines: seq<string>)
    ensures var b := AddLines(START, lines);
            && Pending(b) && Taken(b) == WordsOf(ProseLines(lines))
            && (b.inTags <==> HasTag(lines))
    decreases |lines|
  {
    hide AddLine, Words, Flatten, Join, IsTag;
    if lines != [] {
      var init, last := lines[..|lines| - 1], lines[|lines| - 1];
      LinesTaken(init);
      var b := AddLines(START, init);
      ProseLinesGrow(init, last);
      assert lines == init + [last];
      assert ProseLines(init) + [] == ProseLines(init);
      if b.inTags || IsTag(last) {
        TagLineAdds(b, last);
      } else {
        ProseLineAdds(b, last);
        WordsOfBoth(ProseLines(init), [last]);
        WordsOfOne(last);
      }
    }
  }

  /** The words of the prose are those of the lines before the first block tag, each
      once and in order. */
  lemma ProseKeepsWords(lines: seq<string>)
    ensures Words(Join(FlushPara(AddLines(START, lines)).blocks, "\n\n")) == WordsOf(ProseLines(lines))
  {
    hide Words, FlushPara, AddLines, Taken;
    LinesTaken(lines);
    var b := AddLines(START, lines);
    FlushParaKeeps(b);
    WordsOfJoin(FlushPara(b).blocks, "\n\n");
  }

  // ----- paragraphs and lists

  /** Lines `from` up to `to`. */
  datatype Run = Run(from: nat, to: nat)

  ghost predicate EndsRun(lines: seq<string>, k: nat) {
    k >= |lines| || AllSpaces(lines[k]) || IsItem(lines[k])
  }

  /** Lines in a row, none blank and none but the first an item, as many as there are. */
  ghost predicate IsRun(lines: seq<string>, r: Run) {
    && r.from < r.to <= |lines|
    && (forall k :: r.from <= k < r.to ==> !AllSpaces(lines[k]))
    && (forall k :: r.from < k < r.to ==> !IsItem(lines[k]))
    && (r.from == 0 || AllSpaces(lines[r.from - 1]) || IsItem(lines[r.from]))
    && EndsRun(lines, r.to)
  }

  /** All the runs, one after the other. */
  ghost predicate AreRuns(lines: seq<string>, runs: seq<Run>) {
    && (forall i :: 0 <= i < |runs| ==> IsRun(lines, runs[i]))
    && (forall i, j :: 0 <= i < j < |runs| ==> runs[i].to <= runs[j].from)
    && (forall r :: IsRun(lines, r) ==> r in runs)
  }

  ghost predicate Inside(lines: seq<string>, runs: seq<Run>) {
    forall i :: 0 <= i < |runs| ==> runs[i].from < runs[i].to <= |lines|
  }

  /** A run on one line: its words with a space between each two. */
  function Line(lines: seq<string>, r: Run): string
    requires r.from < r.to <= |lines|
  {
    Join(WordsOf(lines[r.from..r.to]), " ")
  }

  /** Items that follow each other without a blank line stand on lines of their own; between
      all others is an empty line. */
  function Between(lines: seq<string>, r: Run, s: Run): string
    requires r.from < r.to <= |lines| && s.from < s.to <= |lines|
  {
    if IsItem(lines[r.from]) && IsItem(lines[s.from]) && r.to == s.from then "\n" else "\n\n"
  }

  /** The runs in order, put together. */
  ghost function Prose(lines: seq<string>, runs: seq<Run>): string
    requires Inside(lines, runs)
    decreases |runs|
  {
    if runs == [] then ""
    else
      var init, last := runs[..|runs| - 1], runs[|runs| - 1];
      if init == [] then Line(lines, last)
      else Prose(lines, init) + Between(lines, init[|init| - 1], last) + Line(lines, last)
  }

  // ----- the builder puts out the runs

  lemma BlankIsTrimmed(line: string)
    ensures Trim(line) == "" <==> AllSpaces(line)
  {
    var n := AfterSpaces(line, 0);
    SpacesOnly(line[n..]);
    assert n < |line| ==> line[n..][0] == line[n];
  }

  lemma {:induction false} SpacesOnly(s: string)
    ensures TrimEnd(s) == "" <==> AllSpaces(s)
  {
    if s != "" && IsSpace(s[|s| - 1]) {
      SpacesOnly(s[..|s| - 1]);
      assert s == s[..|s| - 1] + [s[|s| - 1]];
    }
  }

  lemma {:induction false} JoinLast(parts: seq<string>, x: string, separator: string)
    ensures Join(parts + [x], separator) == if parts == [] then x else Join(parts, separator) + separator + x
  {
    if parts == [] {
      assert [] + [x] == [x];
    } else {
      JoinLast(parts[1..], x, separator);
      assert (parts + [x])[1..] == parts[1..] + [x];
      if |parts| > 1 { Regrouped(parts[0] + separator, Join(parts[1..], separator), separator, x); }
    }
  }

  /** The runs that end before `from`; the lines from there to `k` begin another. */
  ghost predicate RunsBefore(lines: seq<string>, runs: seq<Run>, from: nat) {
    && (forall i :: 0 <= i < |runs| ==> IsRun(lines, runs[i]) && runs[i].to <= from)
    && (forall i, j :: 0 <= i < j < |runs| ==> runs[i].to <= runs[j].from)
    && (forall r :: IsRun(lines, r) && r.from < from ==> r in runs)
  }

  ghost predicate Begun(lines: seq<string>, from: nat, k: nat) {
    && from <= k <= |lines|
    && (forall i :: from <= i < k ==> !AllSpaces(lines[i]))
    && (forall i :: from < i < k ==> !IsItem(lines[i]))
    && (from == 0 || AllSpaces(lines[from - 1]) || (from < k && IsItem(lines[from])))
  }

  ghost predicate FollowsItem(lines: seq<string>, runs: seq<Run>, from: nat)
    requires Inside(lines, runs)
  {
    runs != [] && runs[|runs| - 1].to == from && IsItem(lines[runs[|runs| - 1].from])
  }

  /** What pends in the builder is the run begun. */
  ghost predicate Pends(b: Builder, lines: seq<string>, runs: seq<Run>, from: nat, k: nat)
    requires from <= k <= |lines| && Inside(lines, runs)
  {
    if from == k then b.para == [] && b.list == [] && b.item == []
    else if IsItem(lines[from]) then
      b.item == lines[from..k] && b.para == [] && (b.list != [] <==> FollowsItem(lines, runs, from))
    else b.para == lines[from..k] && b.list == [] && b.item == []
  }

  function PutOut(b: Builder): seq<string> {
    b.blocks + if b.list == [] then [] else [Join(b.list, "\n")]
  }

  /** What is put out are the runs before. */
  ghost predicate Shows(out: seq<string>, lines: seq<string>, runs: seq<Run>)
    requires Inside(lines, runs)
  {
    Join(out, "\n\n") == Prose(lines, runs) && (out == [] <==> runs == [])
  }

  ghost predicate Describes(b: Builder, lines: seq<string>, runs: seq<Run>, from: nat, k: nat) {
    && Inside(lines, runs) && RunsBefore(lines, runs, from) && Begun(lines, from, k)
    && !b.inTags && Pends(b, lines, runs, from, k) && Shows(PutOut(b), lines, runs)
  }

  lemma RunCloses(lines: seq<string>, runs: seq<Run>, from: nat, k: nat)
    requires RunsBefore(lines, runs, from) && Begun(lines, from, k) && from < k && EndsRun(lines, k)
    ensures RunsBefore(lines, runs + [Run(from, k)], k)
  {
    hide AllSpaces, IsItem;
    var longer := runs + [Run(from, k)];
    assert longer[|runs|] == Run(from, k);
    forall r | IsRun(lines, r) && r.from < k ensures r in longer {
      if r.from >= from {
        assert r.from == from;
        assert r.to <= k;
        assert r.to == k;
      }
    }
  }

  lemma BlankPasses(lines: seq<string>, runs: seq<Run>, k: nat)
    requires RunsBefore(lines, runs, k) && k < |lines| && AllSpaces(lines[k])
    ensures RunsBefore(lines, runs, k + 1)
  {
    hide AllSpaces, IsItem;
  }

  lemma ProseGrows(lines: seq<string>, runs: seq<Run>, r: Run)
    requires Inside(lines, runs) && r.from < r.to <= |lines|
    ensures Inside(lines, runs + [r])
    ensures Prose(lines, runs + [r]) == if runs == [] then Line(lines, r)
                                       else Prose(lines, runs) + Between(lines, runs[|runs| - 1], r) + Line(lines, r)
  {
    assert (runs + [r])[..|runs|] == runs;
  }

  /** A paragraph comes out as a block of its own. */
  lemma ParagraphShows(b: Builder, lines: seq<string>, runs: seq<Run>, from: nat, k: nat)
    requires Describes(b, lines, runs, from, k) && from < k && !IsItem(lines[from])
    ensures Inside(lines, runs + [Run(from, k)])
    ensures Shows(b.blocks + [Flatten(b.para)], lines, runs + [Run(from, k)])
  {
    hide AllSpaces, IsItem, Flatten, Join;
    ProseGrows(lines, runs, Run(from, k));
    JoinLast(b.blocks, Flatten(b.para), "\n\n");
    FlattenIsWords(b.para);
    assert PutOut(b) == b.blocks;
  }

  /** One more item at the end of a list. */
  lemma ListGrows(blocks: seq<string>, list: seq<string>, line: string)
    ensures Join(blocks + [Join(list + [line], "\n")], "\n\n")
        == if list != [] then Join(blocks + [Join(list, "\n")], "\n\n") + "\n" + line
           else if blocks == [] then line else Join(blocks, "\n\n") + "\n\n" + line
  {
    hide Join;
    JoinLast(list, line, "\n");
    JoinLast(blocks, Join(list + [line], "\n"), "\n\n");
    if list != [] {
      var before := Join(list, "\n");
      JoinLast(blocks, before, "\n\n");
      if blocks != [] {
        var out := Join(blocks, "\n\n") + "\n\n";
        assert out + (before + "\n" + line) == out + before + "\n" + line;
      }
    }
  }

  /** An item joins the items right before it, or comes out as a block. */
  lemma ItemShows(b: Builder, lines: seq<string>, runs: seq<Run>, from: nat, k: nat)
    requires Describes(b, lines, runs, from, k) && from < k && IsItem(lines[from])
    ensures Inside(lines, runs + [Run(from, k)])
    ensures Shows(b.blocks + [Join(b.list + [Flatten(b.item)], "\n")], lines, runs + [Run(from, k)])
  {
    hide AllSpaces, IsItem, Flatten, Join, RunsBefore;
    ProseGrows(lines, runs, Run(from, k));
    FlattenIsWords(b.item);
    ListGrows(b.blocks, b.list, Flatten(b.item));
    assert b.blocks + [] == b.blocks;
  }

  lemma FlushShows(b: Builder, lines: seq<string>, runs: seq<Run>, from: nat, k: nat)
    requires Describes(b, lines, runs, from, k)
    ensures var now := if from < k then runs + [Run(from, k)] else runs;
            Inside(lines, now) && Shows(FlushPara(b).blocks, lines, now)
  {
    hide Flatten, Join, Shows, IsItem, AllSpaces, RunsBefore;
    if from == k {
      assert b.blocks + [] == b.blocks;
    } else if IsItem(lines[from]) {
      ItemShows(b, lines, runs, from, k);
    } else {
      ParagraphShows(b, lines, runs, from, k);
    }
  }

  lemma BlankDescribed(b: Builder, lines: seq<string>, runs: seq<Run>, from: nat, k: nat) returns (now: seq<Run>)
    requires Describes(b, lines, runs, from, k) && k < |lines| && AllSpaces(lines[k])
    ensures Describes(FlushPara(b), lines, now, k + 1, k + 1)
  {
    hide Flatten, Join, IsItem, AllSpaces, Shows, RunsBefore;
    now := if from < k then runs + [Run(from, k)] else runs;
    FlushShows(b, lines, runs, from, k);
    if from < k { RunCloses(lines, runs, from, k); }
    BlankPasses(lines, now, k);
    var f := FlushPara(b);
    assert f.blocks + [] == f.blocks;
  }

  lemma ItemDescribed(b: Builder, lines: seq<string>, runs: seq<Run>, from: nat, k: nat) returns (now: seq<Run>)
    requires Describes(b, lines, runs, from, k) && k < |lines| && !AllSpaces(lines[k]) && IsItem(lines[k])
    ensures var f := FlushItem(b);
            var n := f.(blocks := if f.para != [] then f.blocks + [Flatten(f.para)] else f.blocks, para := [],
              item := [lines[k]]);
            Describes(n, lines, now, k, k + 1)
  {
    hide Flatten, Join, IsItem, AllSpaces, Shows, RunsBefore;
    if from == k {
      now := runs;
      NoneFollows(lines, runs, k);
      assert PutOut(b) == b.blocks == b.blocks + [];
    } else {
      now := runs + [Run(from, k)];
      RunCloses(lines, runs, from, k);
      assert now[|now| - 1] == Run(from, k);
      if IsItem(lines[from]) {
        ItemShows(b, lines, runs, from, k);
      } else {
        ParagraphShows(b, lines, runs, from, k);
        var out := b.blocks + [Flatten(b.para)];
        assert out + [] == out;
      }
    }
    assert lines[k..k + 1] == [lines[k]];
  }

  lemma NoneFollows(lines: seq<string>, runs: seq<Run>, k: nat)
    requires Inside(lines, runs) && RunsBefore(lines, runs, k) && Begun(lines, k, k)
    ensures !FollowsItem(lines, runs, k)
  {
    hide IsItem;
  }

  lemma MoreDescribed(b: Builder, lines: seq<string>, runs: seq<Run>, from: nat, k: nat)
    requires Describes(b, lines, runs, from, k) && k < |lines| && !AllSpaces(lines[k]) && !IsItem(lines[k])
    ensures Describes(if b.item != [] then b.(item := b.item + [lines[k]]) else b.(para := b.para + [lines[k]]),
              lines, runs, from, k + 1)
  {
    hide Flatten, Join, IsItem, AllSpaces, Shows, RunsBefore;
    assert lines[from..k + 1] == lines[from..k] + [lines[k]];
  }

  lemma LineDescribed(b: Builder, lines: seq<string>, runs: seq<Run>, from: nat, k: nat)
    returns (runs': seq<Run>, from': nat)
    requires k < |lines| && !IsTag(lines[k]) && Describes(b, lines, runs, from, k)
    ensures Describes(AddLine(b, lines[k]), lines, runs', from', k + 1)
  {
    var line := lines[k];
    assert !b.inTags;
    hide Describes, FlushPara, FlushItem, Flatten, Join, IsItem, AllSpaces, Trim, IsTag, NamesMode, ModeOf;
    NotAMode(line);
    BlankIsTrimmed(line);
    runs', from' := runs, from;
    if AllSpaces(line) {
      runs' := BlankDescribed(b, lines, runs, from, k);
      from' := k + 1;
    } else if IsItem(line) {
      runs' := ItemDescribed(b, lines, runs, from, k);
      from' := k;
    } else {
      MoreDescribed(b, lines, runs, from, k);
    }
  }

  lemma StartDescribed(lines: seq<string>)
    ensures Describes(START, lines, [], 0, 0)
  {
    hide IsItem, AllSpaces, IsTag;
    assert PutOut(START) == [] && Join([], "\n\n") == "";
  }

  lemma {:induction false} LinesDescribed(lines: seq<string>, k: nat) returns (runs: seq<Run>, from: nat)
    requires k <= |lines| && forall i :: 0 <= i < |lines| ==> !IsTag(lines[i])
    ensures Describes(AddLines(START, lines[..k]), lines, runs, from, k)
    decreases k
  {
    hide Describes, AddLine, IsTag;
    if k == 0 {
      runs, from := [], 0;
      StartDescribed(lines);
    } else {
      runs, from := LinesDescribed(lines, k - 1);
      assert lines[..k][..k - 1] == lines[..k - 1];
      runs, from := LineDescribed(AddLines(START, lines[..k - 1]), lines, runs, from, k - 1);
    }
  }

  lemma AllRunsBefore(lines: seq<string>, runs: seq<Run>)
    requires RunsBefore(lines, runs, |lines|)
    ensures AreRuns(lines, runs)
  {
    hide IsItem, AllSpaces;
  }

  /** Lines without a tag come out as their runs. */
  lemma RunsPutOut(lines: seq<string>) returns (runs: seq<Run>)
    requires forall i :: 0 <= i < |lines| ==> !IsTag(lines[i])
    ensures AreRuns(lines, runs) && Inside(lines, runs)
    ensures Join(FlushPara(AddLines(START, lines)).blocks, "\n\n") == Prose(lines, runs)
  {
    var n := |lines|;
    var before, from := LinesDescribed(lines, n);
    assert lines[..n] == lines;
    assert RunsBefore(lines, before, from) && Begun(lines, from, n) && from <= n;
    hide RunsBefore, Begun, Describes, AreRuns, FlushPara, AddLines, Join, Prose, IsTag;
    FlushShows(AddLines(START, lines), lines, before, from, n);
    runs := before;
    if from < n {
      RunCloses(lines, before, from, n);
      runs := before + [Run(from, n)];
    }
    AllRunsBefore(lines, runs);
  }

  lemma {:induction false} ProseHasNoTags(lines: seq<string>)
    ensures forall i :: 0 <= i < |ProseLines(lines)| ==> !IsTag(ProseLines(lines)[i])
    ensures !HasTag(lines) ==> ProseLines(lines) == lines
  {
    if lines != [] && !IsTag(lines[0]) {
      ProseHasNoTags(lines[1..]);
      assert lines == [lines[0]] + lines[1..];
    }
  }

  ghost predicate IsFlushed(b: Builder) {
    b.inTags && b.item == [] && b.list == [] && b.para == []
  }

  /** A tag puts out what pends; behind it nothing is. */
  lemma TagFlushes(b: Builder, line: string)
    requires IsTag(line) || IsFlushed(b)
    ensures IsFlushed(AddLine(b, line)) && AddLine(b, line).blocks == FlushPara(b).blocks
    ensures FlushPara(AddLine(b, line)).blocks == AddLine(b, line).blocks
  {
    hide IsTag, NamesMode, ModeOf, IsItem, Trim, Flatten, Join;
    if !IsTag(line) { NotAMode(line); }
  }

  /** From the first tag on nothing more is put out. */
  lemma {:induction false} TagsEndProse(lines: seq<string>)
    ensures FlushPara(AddLines(START, lines)).blocks == FlushPara(AddLines(START, ProseLines(lines))).blocks
    ensures HasTag(lines) ==> IsFlushed(AddLines(START, lines))
    decreases |lines|
  {
    hide IsTag, AddLine, FlushPara, IsFlushed;
    ProseHasNoTags(lines);
    if HasTag(lines) {
      var init, last := lines[..|lines| - 1], lines[|lines| - 1];
      assert lines == init + [last];
      ProseLinesGrow(init, last);
      assert ProseLines(init) + [] == ProseLines(init);
      TagsEndProse(init);
      TagFlushes(AddLines(START, init), last);
    }
  }

  lemma {:induction false} WordlessIsBlank(s: string)
    requires Words(s) == []
    ensures AllSpaces(s)
    decreases |s|
  {
    if s != "" {
      WordlessIsBlank(s[1..]);
      assert s == [s[0]] + s[1..];
    }
  }

  lemma {:induction false} JoinedSolid(words: seq<string>)
    requires forall w :: w in words ==> '\n' !in w
    ensures '\n' !in Join(words, " ")
  {
    if |words| > 1 { JoinedSolid(words[1..]); }
  }

  lemma {:induction false} WordsOfAreSolid(lines: seq<string>)
    ensures forall w :: w in WordsOf(lines) ==> w != "" && '\n' !in w
  {
    if lines != [] {
      WordsAreSolid(lines[0]);
      WordsOfAreSolid(lines[1..]);
      assert IsSpace('\n');
    }
  }

  /** Each run has a line to itself, and a line that shows something. */
  lemma RunIsOneLine(lines: seq<string>, r: Run)
    requires IsRun(lines, r)
    ensures Line(lines, r) != "" && '\n' !in Line(lines, r)
  {
    hide IsSpace, AllSpaces, Words;
    var words := WordsOf(lines[r.from..r.to]);
    WordsOfAreSolid(lines[r.from..r.to]);
    JoinedSolid(words);
    if Words(lines[r.from]) == [] { WordlessIsBlank(lines[r.from]); }
    assert words[0] in words;
  }

  /** The text that the lines before the first block tag come out as: their runs in order,
      each on one line. */
  ghost predicate IsProseOf(doc: string, lines: seq<string>) {
    exists runs :: AreRuns(lines, runs) && Inside(lines, runs) && doc == Prose(lines, runs)
  }

  lemma ProseIsRuns(lines: seq<string>)
    ensures IsProseOf(Join(FlushPara(AddLines(START, lines)).blocks, "\n\n"), ProseLines(lines))
  {
    hide FlushPara, AddLines, Join, ProseLines, AreRuns, Prose;
    ProseHasNoTags(lines);
    TagsEndProse(lines);
    var runs := RunsPutOut(ProseLines(lines));
  }

  // ----- the modes

  /** The last line that gives a mode, and the mode. */
  ghost predicate IsLastMode(lines: seq<string>, k: nat, mode: Option<string>) {
    k < |lines| && ModeOf(lines[k]) == mode && forall l :: k < l < |lines| ==> ModeOf(lines[l]).None?
  }

  /** The last well-formed `@mode` line decides; any `@mode` line counts as one. */
  lemma {:induction false} ModesFound(lines: seq<string>)
    ensures var b := AddLines(START, lines);
            && (b.hasMode <==> exists k :: 0 <= k < |lines| && NamesMode(lines[k]))
            && (b.mode.None? ==> forall k :: 0 <= k < |lines| ==> ModeOf(lines[k]).None?)
            && (b.mode.Some? ==> exists k: nat :: IsLastMode(lines, k, b.mode))
    decreases |lines|
  {
    hide NamesMode, ModeOf, IsTag, IsItem, Trim, FlushItem, Flatten;
    if lines != [] {
      var init, last := lines[..|lines| - 1], lines[|lines| - 1];
      ModesFound(init);
      var b, n := AddLines(START, init), AddLines(START, lines);
      assert forall k :: 0 <= k < |init| ==> init[k] == lines[k];
      ModeStep(b, last);
      if ModeOf(last).Some? {
        assert IsLastMode(lines, |lines| - 1, n.mode);
      } else if b.mode.Some? {
        var k: nat :| IsLastMode(init, k, b.mode);
        assert IsLastMode(lines, k, n.mode);
      }
    }
  }

  lemma ModeStep(b: Builder, line: string)
    ensures var n := AddLine(b, line);
            && n.mode == (if ModeOf(line).Some? then ModeOf(line) else b.mode)
            && n.hasMode == (b.hasMode || NamesMode(line))
  {
    hide IsTag, IsItem, Trim, Flatten, Join;
  }

  // ----- the loop

  datatype Parsed = Parsed(doc: string, mode: Option<string>, hasMode: bool)

  class BlockBuilder {
    var mode: Option<string>
    var hasMode: bool
    var inTags: bool
    var blocks: seq<string>
    var para: seq<string>
    var list: seq<string>
    var item: seq<string>

    function State(): Builder
      reads this
    {
      Builder(mode, hasMode, inTags, blocks, para, list, item)
    }

    constructor ()
      ensures State() == START
    {
      mode, hasMode, inTags, blocks, para, list, item := None, false, false, [], [], [], [];
    }

    method EndItem()
      modifies this
      ensures State() == FlushItem(old(State()))
    {
      if item != [] { list := list + [Flatten(item)]; }
      item := [];
    }

    method EndList()
      modifies this
      ensures State() == FlushList(old(State()))
    {
      EndItem();
      if list != [] { blocks := blocks + [Join(list, "\n")]; }
      list := [];
    }

    method EndPara()
      modifies this
      ensures State() == FlushPara(old(State()))
    {
      EndList();
      if para != [] { blocks := blocks + [Flatten(para)]; }
      para := [];
    }

    method Add(line: string)
      modifies this
      ensures State() == AddLine(old(State()), line)
    {
      hide ModeOf, NamesMode, IsTag, IsItem, Trim, Flatten, Join;
      if ModeOf(line).Some? {
        mode, hasMode := ModeOf(line), true;
        EndPara();
        inTags := true;
      } else if NamesMode(line) {
        hasMode := true;
        EndPara();
        inTags := true;
      } else if IsTag(line) {
        EndPara();
        inTags := true;
      } else if inTags {
        return;
      } else if Trim(line) == "" {
        EndPara();
      } else if IsItem(line) {
        EndItem();
        if para != [] { blocks, para := blocks + [Flatten(para)], []; }
        item := [line];
      } else if item != [] {
        item := item + [line];
      } else {
        para := para + [line];
      }
    }
  }

  function StripAll(lines: seq<string>): (stripped: seq<string>)
    ensures |stripped| == |lines| && forall k :: 0 <= k < |lines| ==> stripped[k] == StripLine(lines[k])
  {
    if lines == [] then [] else [StripLine(lines[0])] + StripAll(lines[1..])
  }

  /** The lines between the delimiters of the comment. The prose is given as it is
      before inline links are unwrapped. */
  method ParseJsDoc(lines: seq<string>) returns (parsed: Parsed)
    ensures Words(parsed.doc) == WordsOf(ProseLines(StripAll(lines)))
    ensures IsProseOf(parsed.doc, ProseLines(StripAll(lines)))
    ensures parsed.hasMode <==> exists k :: 0 <= k < |lines| && NamesMode(StripLine(lines[k]))
    ensures parsed.mode == AddLines(START, StripAll(lines)).mode
  {
    hide AddLine, Words, Join, ProseLines, NamesMode, StripLine;
    var inner := StripAll(lines);
    var builder := new BlockBuilder();
    for k := 0 to |inner|
      invariant builder.State() == AddLines(START, inner[..k])
    {
      assert inner[..k + 1][..k] == inner[..k];
      builder.Add(inner[k]);
    }
    assert inner[..|inner|] == inner;
    builder.EndPara();
    ProseKeepsWords(inner);
    ProseIsRuns(inner);
    ModesFound(inner);
    parsed := Parsed(Join(builder.blocks, "\n\n"), builder.mode, builder.hasMode);
  }
}
