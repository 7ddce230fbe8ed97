/** Renaming packages in text, one line at a time: a name between quotes, perhaps with a
    subpath, and the value of a YAML `name:` entry. A line cut at its quotes shows what
    global replacement does, one pass after the other. */
module TokenRename {
  import opened Text
  import opened Wrappers

  /** One direction of one rename. */
  datatype Pattern = Pattern(upstream: string, from: string, to: string)

  predicate IsQuote(c: char) {
    c == '\'' || c == '"' || c == '`'
  }

  /** What the patterns take for granted of a package name. */
  ghost predicate IsName(name: string) {
    name != "" && forall c :: c in name ==> !IsQuote(c) && !IsSpace(c) && c != '#'
  }

  // ----- the quoted token

  /** How many characters run on without a quote or a space. */
  function RunLength(s: string): (n: nat)
    ensures n <= |s| && forall k :: 0 <= k < n ==> !IsQuote(s[k]) && !IsSpace(s[k])
    ensures n < |s| ==> IsQuote(s[n]) || IsSpace(s[n])
  {
    if s == "" || IsQuote(s[0]) || IsSpace(s[0]) then 0 else 1 + RunLength(s[1..])
  }

  function SubpathLength(s: string): (n: nat)
    ensures n <= |s|
  {
    if s != "" && s[0] == '/' then 1 + RunLength(s[1..]) else 0
  }

  /** The length of the token that begins the text: a quote, the name, an optional
      subpath, the same quote. Zero when there is none. */
  function TokenLength(s: string, from: string): (n: nat)
    ensures n <= |s| && (n > 0 ==> n >= |from| + 2 && from <= s[1..])
  {
    if s != "" && IsQuote(s[0]) && from <= s[1..] then
      var end := 1 + |from| + SubpathLength(s[1 + |from|..]);
      if end < |s| && s[end] == s[0] then end + 1 else 0
    else 0
  }

  /** `replace` with the global flag: from left to right, each match taken whole. */
  function ReplaceTokens(s: string, from: string, to: string): string
    decreases |s|
  {
    if s == "" then ""
    else
      var n := TokenLength(s, from);
      if n == 0 then [s[0]] + ReplaceTokens(s[1..], from, to)
      else [s[0]] + to + s[1 + |from|..n] + ReplaceTokens(s[n..], from, to)
  }

  // ----- the YAML name

  predicate IsBlank(c: char) {
    c == ' ' || c == '\t'
  }

  function AfterBlanks(s: string, from: nat): (at: nat)
    requires from <= |s|
    ensures from <= at <= |s| && (at < |s| ==> !IsBlank(s[at]))
    ensures forall k :: from <= k < at ==> IsBlank(s[k])
    decreases |s| - from
  {
    if from == |s| || !IsBlank(s[from]) then from else AfterBlanks(s, from + 1)
  }

  const KEY := "name:"

  /** Where the key of a `name:` entry has to be: after spaces and perhaps a dash. */
  function KeyStart(line: string): (at: nat)
    ensures at <= |line|
  {
    var i := AfterSpaces(line, 0);
    if i < |line| && line[i] == '-' then AfterSpaces(line, i + 1) else i
  }

  /** Where the value begins on a line that begins as a `name:` entry does. */
  function YamlValueStart(line: string): (at: Option<nat>)
    ensures at.Some? ==> at.value <= |line|
  {
    var key := KeyStart(line);
    if Reads(line, key, KEY) && AfterBlanks(line, key + 5) > key + 5 then Some(AfterBlanks(line, key + 5)) else None
  }

  /** Only blanks, or blanks and a comment, from `at` on. */
  predicate IsYamlSuffix(line: string, at: nat)
    requires at <= |line|
  {
    var n := AfterBlanks(line, at);
    n == |line| || line[n] == '#'
  }

  predicate HasYamlName(line: string, name: string) {
    var at := YamlValueStart(line);
    at.Some? && Reads(line, at.value, name) && IsYamlSuffix(line, at.value + |name|)
  }

  ghost predicate AllBlanks(s: string) {
    forall k :: 0 <= k < |s| ==> IsBlank(s[k])
  }

  /** The parts of a `name:` entry around the name: the indent, a dash and spaces if it is an
      item, the blanks before the name, those behind it, and a comment. */
  datatype Entry = Entry(indent: string, item: string, gap: string, tail: string, comment: string)

  ghost predicate IsEntry(e: Entry) {
    && AllSpaces(e.indent) && (e.item == "" || (e.item[0] == '-' && AllSpaces(e.item[1..])))
    && e.gap != "" && AllBlanks(e.gap) && AllBlanks(e.tail) && (e.comment == "" || e.comment[0] == '#')
  }

  function Spelled(e: Entry, name: string): string {
    e.indent + e.item + KEY + e.gap + name + e.tail + e.comment
  }

  lemma AfterBlanksIs(s: string, from: nat, at: nat)
    requires from <= at <= |s| && (forall k :: from <= k < at ==> IsBlank(s[k])) && (at < |s| ==> !IsBlank(s[at]))
    ensures AfterBlanks(s, from) == at
  {
    hide IsBlank;
  }

  /** The line is this entry of the name. */
  ghost predicate IsEntryOf(line: string, e: Entry, name: string) {
    IsEntry(e) && line == Spelled(e, name)
  }

  lemma EntryFound(line: string, name: string) returns (e: Entry)
    requires IsName(name) && HasYamlName(line, name)
    ensures IsEntryOf(line, e, name)
  {
    hide IsName, IsSpace, IsBlank, IsEntryOf;
    var key, at := KeyStart(line), YamlValueStart(line).value;
    ReadsSlice(line, key, KEY);
    ReadsSlice(line, at, name);
    e := EntryBetween(line, AfterSpaces(line, 0), key, at, at + |name|, AfterBlanks(line, at + |name|), name);
  }

  lemma EntryBetween(line: string, i: nat, key: nat, at: nat, end: nat, n: nat, name: string) returns (e: Entry)
    requires i <= key && key + 5 < at <= end <= n <= |line|
    requires line[key..key + 5] == KEY && line[at..end] == name
    requires i == AfterSpaces(line, 0)
    requires i == key || (line[i] == '-' && key == AfterSpaces(line, i + 1))
    requires at == AfterBlanks(line, key + 5) && n == AfterBlanks(line, end) && (n == |line| || line[n] == '#')
    ensures IsEntryOf(line, e, name)
  {
    e := EntryAt(line, i, key, at, end, n);
    assert IsEntry(e) by { hide Spelled; EntryIsOne(line, i, key, at, end, n); }
    assert line == Spelled(e, name) by { hide IsEntry; SpelledAt(line, i, key, at, end, n, name); }
    hide IsEntry, Spelled, EntryAt, AfterSpaces, AfterBlanks;
  }

  lemma EntryIsOne(line: string, i: nat, key: nat, at: nat, end: nat, n: nat)
    requires i <= key && key + 5 < at <= end <= n <= |line|
    requires i == AfterSpaces(line, 0)
    requires i == key || (line[i] == '-' && key == AfterSpaces(line, i + 1))
    requires at == AfterBlanks(line, key + 5) && n == AfterBlanks(line, end) && (n == |line| || line[n] == '#')
    ensures IsEntry(EntryAt(line, i, key, at, end, n))
  {
    hide IsSpace, IsBlank, AfterSpaces, AfterBlanks;
    var e := EntryAt(line, i, key, at, end, n);
    if i != key {
      assert e.item[0] == line[i];
      assert forall k :: 0 <= k < |e.item| - 1 ==> e.item[1..][k] == line[i + 1 + k];
    }
  }

  function EntryAt(line: string, i: nat, key: nat, at: nat, end: nat, n: nat): Entry
    requires i <= key && key + 5 <= at <= end <= n <= |line|
  {
    Entry(line[..i], line[i..key], line[key + 5..at], line[end..n], line[n..])
  }

  lemma SpelledAt(line: string, i: nat, key: nat, at: nat, end: nat, n: nat, name: string)
    requires i <= key && key + 5 <= at <= end <= n <= |line|
    requires line[key..key + 5] == KEY && line[at..end] == name
    ensures line == Spelled(EntryAt(line, i, key, at, end, n), name)
  {
    assert line[..i] + line[i..key] == line[..key];
    assert line[..key] + KEY == line[..key + 5];
    assert line[..key + 5] + line[key + 5..at] == line[..at];
    assert line[..at] + name == line[..end];
    assert line[..end] + line[end..n] == line[..n];
    assert line[..n] + line[n..] == line;
  }

  lemma ReadsSlice(s: string, at: nat, t: string)
    requires Reads(s, at, t)
    ensures at + |t| <= |s| && s[at..at + |t|] == t
  {
  }

  /** What stands where in an entry. */
  ghost predicate HasParts(line: string, e: Entry, name: string) {
    var key := |e.indent| + |e.item|;
    var at := key + 5 + |e.gap|;
    var end := at + |name|;
    && |line| == end + |e.tail| + |e.comment|
    && Reads(line, 0, e.indent) && Reads(line, |e.indent|, e.item) && Reads(line, key, KEY)
    && Reads(line, key + 5, e.gap) && Reads(line, at, name) && Reads(line, end, e.tail)
    && Reads(line, end + |e.tail|, e.comment)
  }

  lemma EntryParts(e: Entry, name: string)
    ensures HasParts(Spelled(e, name), e, name)
  {
    assert |KEY| == 5;
  }

  lemma SpacesEnd(s: string, from: nat, spaces: string)
    requires Reads(s, from, spaces) && AllSpaces(spaces)
    requires from + |spaces| == |s| || !IsSpace(s[from + |spaces|])
    ensures AfterSpaces(s, from) == from + |spaces|
  {
    hide IsSpace;
    assert forall k :: from <= k < from + |spaces| ==> s[k] == spaces[k - from];
    AfterSpacesIs(s, from, from + |spaces|);
  }

  lemma BlanksEnd(s: string, from: nat, blanks: string)
    requires Reads(s, from, blanks) && AllBlanks(blanks)
    requires from + |blanks| == |s| || !IsBlank(s[from + |blanks|])
    ensures AfterBlanks(s, from) == from + |blanks|
  {
    hide IsBlank;
    assert forall k :: from <= k < from + |blanks| ==> s[k] == blanks[k - from];
    AfterBlanksIs(s, from, from + |blanks|);
  }

  lemma FirstRead(s: string, at: nat, t: string)
    requires Reads(s, at, t) && t != ""
    ensures at < |s| && s[at] == t[0]
  {
    assert s[at + 0] == t[0];
  }

  lemma EntryGivesName(line: string, e: Entry, name: string)
    requires IsName(name) && IsEntryOf(line, e, name)
    ensures HasYamlName(line, name)
  {
    hide IsSpace, IsBlank, IsEntry, IsName, HasYamlName, HasParts;
    EntryParts(e, name);
    hide Spelled;
    PartsGiveName(line, e, name);
  }

  lemma PartsGiveName(line: string, e: Entry, name: string)
    requires IsName(name) && IsEntry(e) && HasParts(line, e, name)
    ensures HasYamlName(line, name)
  {
    hide IsSpace, IsBlank, IsName, AfterBlanks, AfterSpaces, Reads, HasYamlName, KeyStart;
    var key := |e.indent| + |e.item|;
    var at := key + 5 + |e.gap|;
    var end := at + |name|;
    NotBlank(name);
    FirstRead(line, key, KEY);
    KeyOfEntry(e, line);
    FirstRead(line, at, name);
    BlanksEnd(line, key + 5, e.gap);
    if e.comment != "" { FirstRead(line, end + |e.tail|, e.comment); }
    BlanksEnd(line, end, e.tail);
    NameGiven(line, key, at, end, name);
  }

  lemma NotBlank(name: string)
    requires IsName(name)
    ensures name != "" && !IsBlank(name[0]) && !IsBlank('#') && KEY[0] == 'n'
  {
    assert name[0] in name;
  }

  lemma NameGiven(line: string, key: nat, at: nat, end: nat, name: string)
    requires key + 5 < at && end == at + |name| && key == KeyStart(line)
    requires Reads(line, key, KEY) && Reads(line, at, name)
    requires AfterBlanks(line, key + 5) == at
    requires AfterBlanks(line, end) == |line| || line[AfterBlanks(line, end)] == '#'
    ensures HasYamlName(line, name)
  {
    hide IsBlank;
  }

  lemma KeyOfEntry(e: Entry, line: string)
    requires IsEntry(e) && Reads(line, 0, e.indent) && Reads(line, |e.indent|, e.item)
    requires |line| > |e.indent| + |e.item| && line[|e.indent| + |e.item|] == 'n'
    ensures KeyStart(line) == |e.indent| + |e.item|
  {
    var i := |e.indent|;
    assert !IsSpace('n') && !IsSpace('-');
    hide IsSpace, AfterSpaces;
    if e.item != "" {
      FirstRead(line, i, e.item);
      assert Reads(line, i + 1, e.item[1..]) by {
        forall k | 0 <= k < |e.item| - 1 ensures line[i + 1 + k] == e.item[1..][k] {
          assert line[i + (k + 1)] == e.item[k + 1];
        }
      }
      SpacesEnd(line, i + 1, e.item[1..]);
    }
    SpacesEnd(line, 0, e.indent);
  }

  /** A line gives the name exactly when it is such an entry of it. */
  lemma YamlNameIff(line: string, name: string)
    requires IsName(name)
    ensures HasYamlName(line, name) <==> exists e :: IsEntryOf(line, e, name)
  {
    hide IsEntryOf;
    if HasYamlName(line, name) { var e := EntryFound(line, name); }
    if e :| IsEntryOf(line, e, name) { EntryGivesName(line, e, name); }
  }

  function ReplaceYamlName(line: string, from: string, to: string): string {
    if HasYamlName(line, from) then
      var at := YamlValueStart(line).value;
      line[..at] + to + line[at + |from|..]
    else line
  }

  // ----- a line

  function RewriteOne(line: string, p: Pattern): string {
    ReplaceYamlName(ReplaceTokens(line, p.from, p.to), p.from, p.to)
  }

  function RewriteAll(line: string, all: seq<Pattern>): string
    decreases |all|
  {
    if all == [] then line else RewriteAll(RewriteOne(line, all[0]), all[1..])
  }

  // ----- a line cut at its quotes

  /** A quote and the text up to the next one. */
  datatype Piece = Piece(quote: char, body: string)
  datatype Line = Line(head: string, pieces: seq<Piece>)

  function Cut(s: string): Line {
    if s == "" then Line("", [])
    else
      var rest := Cut(s[1..]);
      if IsQuote(s[0]) then Line("", [Piece(s[0], rest.head)] + rest.pieces) else Line([s[0]] + rest.head, rest.pieces)
  }

  function Uncut(pieces: seq<Piece>): string {
    if pieces == [] then "" else [pieces[0].quote] + pieces[0].body + Uncut(pieces[1..])
  }

  function Whole(line: Line): string {
    line.head + Uncut(line.pieces)
  }

  ghost predicate NoQuote(s: string) {
    forall c :: c in s ==> !IsQuote(c)
  }

  ghost predicate NoSpace(s: string) {
    forall c :: c in s ==> !IsSpace(c)
  }

  ghost predicate WellCut(pieces: seq<Piece>) {
    forall i :: 0 <= i < |pieces| ==> IsQuote(pieces[i].quote) && NoQuote(pieces[i].body)
  }

  lemma CutWhole(s: string)
    ensures Whole(Cut(s)) == s && NoQuote(Cut(s).head) && WellCut(Cut(s).pieces)
  {
    if s != "" {
      CutWhole(s[1..]);
      var rest := Cut(s[1..]);
      assert s == [s[0]] + s[1..];
      if IsQuote(s[0]) {
        assert ([Piece(s[0], rest.head)] + rest.pieces)[1..] == rest.pieces;
      }
    }
  }

  lemma CutFirst(c: char, rest: string)
    ensures Cut([c] + rest) == if IsQuote(c) then Line("", [Piece(c, Cut(rest).head)] + Cut(rest).pieces)
                                             else Line([c] + Cut(rest).head, Cut(rest).pieces)
  {
    assert ([c] + rest)[1..] == rest;
  }

  lemma {:induction false} CutUnique(head: string, pieces: seq<Piece>)
    requires NoQuote(head) && WellCut(pieces)
    ensures Cut(head + Uncut(pieces)) == Line(head, pieces)
    decreases |pieces|, |head|
  {
    if head != "" {
      hide Cut;
      var c, more := head[0], head[1..];
      assert head + Uncut(pieces) == [c] + (more + Uncut(pieces));
      CutFirst(c, more + Uncut(pieces));
      CutUnique(more, pieces);
      assert head == [c] + more;
    } else if pieces != [] {
      hide Cut;
      var first, rest := pieces[0], pieces[1..];
      assert head + Uncut(pieces) == [first.quote] + (first.body + Uncut(rest));
      CutFirst(first.quote, first.body + Uncut(rest));
      CutUnique(first.body, rest);
      assert pieces == [first] + rest;
    }
  }

  // ----- tokens, piece by piece

  /** The name itself or a path below it. */
  predicate Belongs(body: string, name: string) {
    body == name || name + "/" <= body
  }

  /** The `i`-th quote opens a token of this name, and the next one closes it. */
  ghost predicate IsToken(pieces: seq<Piece>, i: nat, name: string) {
    && i + 1 < |pieces| && pieces[i].quote == pieces[i + 1].quote
    && NoSpace(pieces[i].body) && Belongs(pieces[i].body, name)
  }

  function Renamed(body: string, from: string, to: string): string {
    if from <= body then to + body[|from|..] else body
  }

  /** One pass. `taken` says that the first quote has just closed a token. */
  ghost function Pass(pieces: seq<Piece>, from: string, to: string, taken: bool): (r: seq<Piece>)
    ensures |r| == |pieces|
  {
    if pieces == [] then []
    else
      var hit := !taken && IsToken(pieces, 0, from);
      [if hit then Piece(pieces[0].quote, Renamed(pieces[0].body, from, to)) else pieces[0]]
        + Pass(pieces[1..], from, to, hit)
  }

  lemma RunEnds(body: string, tail: string)
    requires NoQuote(body) && (tail == "" || IsQuote(tail[0]))
    ensures var n := RunLength(body + tail);
            if NoSpace(body) then n == |body| else n < |body| && IsSpace((body + tail)[n])
  {
    var s, n := body + tail, RunLength(body + tail);
    if n < |body| {
      assert s[n] == body[n] && body[n] in body;
    }
    if !NoSpace(body) {
      var c :| c in body && IsSpace(c);
      var k :| 0 <= k < |body| && body[k] == c;
      assert s[k] == c;
    }
    assert |body| < |s| ==> s[|body|] == tail[0];
  }

  lemma QuotesAreNoSpaces(c: char)
    requires IsQuote(c)
    ensures !IsSpace(c)
  {
  }

  /** Where a token begins, in terms of the pieces. */
  lemma TokenLengthOfPieces(q: char, body: string, tail: string, name: string)
    requires IsQuote(q) && NoQuote(body) && IsName(name) && (tail == "" || IsQuote(tail[0]))
    ensures TokenLength([q] + body + tail, name) ==
              if NoSpace(body) && Belongs(body, name) && tail != "" && tail[0] == q then |body| + 2 else 0
  {
    var s := [q] + body + tail;
    assert s[1..] == body + tail;
    if name <= s[1..] {
      NameInsideBody(body, tail, name);
      var rest := body[|name|..];
      assert s[1 + |name|..] == rest + tail;
      assert NoQuote(rest) by { assert forall c :: c in rest ==> c in body; }
      SubpathOfRest(rest, tail);
      assert s[1 + |body|..] == tail;
      SpacesInRest(body, name);
    } else {
      if name <= body { PrefixStays(body, tail, name); }
    }
  }

  lemma PrefixStays(body: string, tail: string, name: string)
    requires name <= body
    ensures name <= body + tail
  {
  }

  lemma NameInsideBody(body: string, tail: string, name: string)
    requires IsName(name) && name <= body + tail && (tail == "" || IsQuote(tail[0]))
    ensures name <= body
  {
    assert forall k :: 0 <= k < |name| ==> name[k] == (body + tail)[k] && name[k] in name;
    assert |body| < |body + tail| ==> (body + tail)[|body|] == tail[0];
    assert |name| <= |body|;
    assert (body + tail)[..|name|] == body[..|name|];
  }

  lemma SpacesInRest(body: string, name: string)
    requires IsName(name) && name <= body
    ensures NoSpace(body) <==> NoSpace(body[|name|..])
    ensures Belongs(body, name) <==> body[|name|..] == "" || body[|name|] == '/'
  {
    var rest := body[|name|..];
    assert body == name + rest;
    if rest != "" {
      assert name + "/" <= body <==> rest[0] == '/';
    }
  }

  lemma SubpathOfRest(rest: string, tail: string)
    requires NoQuote(rest) && (tail == "" || IsQuote(tail[0]))
    ensures var n := SubpathLength(rest + tail);
            if rest == "" then n == 0
            else if rest[0] != '/' then n == 0 && !IsQuote((rest + tail)[0])
            else if NoSpace(rest) then n == |rest|
            else n < |rest + tail| && IsSpace((rest + tail)[n])
  {
    if rest == "" {
      assert rest + tail == tail;
    } else {
      assert rest[0] in rest;
      if rest[0] == '/' {
        assert (rest + tail)[1..] == rest[1..] + tail;
        assert NoQuote(rest[1..]) by { assert forall c :: c in rest[1..] ==> c in rest; }
        RunEnds(rest[1..], tail);
        assert NoSpace(rest) <==> NoSpace(rest[1..]) by {
          assert rest == ['/'] + rest[1..];
        }
      }
    }
  }

  lemma OneStep(s: string, from: string, to: string)
    requires s != ""
    ensures var n := TokenLength(s, from);
            ReplaceTokens(s, from, to) == if n == 0 then [s[0]] + ReplaceTokens(s[1..], from, to)
                                          else [s[0]] + to + s[1 + |from|..n] + ReplaceTokens(s[n..], from, to)
    ensures !IsQuote(s[0]) ==> TokenLength(s, from) == 0
  {
  }

  lemma {:induction false} ReplaceSkips(head: string, tail: string, from: string, to: string)
    requires NoQuote(head)
    ensures ReplaceTokens(head + tail, from, to) == head + ReplaceTokens(tail, from, to)
    decreases |head|
  {
    hide ReplaceTokens, TokenLength;
    if head == "" {
      assert head + tail == tail;
    } else {
      var c, rest := head[0], head[1..];
      ReplaceSkips(rest, tail, from, to);
      assert c in head && head == [c] + rest;
      OneStep(head + tail, from, to);
      assert (head + tail)[1..] == rest + tail;
      Regroup([c], rest, ReplaceTokens(tail, from, to));
    }
  }

  lemma Regroup(a: string, b: string, c: string)
    ensures a + (b + c) == a + b + c
  {
  }

  lemma WellCutRest(pieces: seq<Piece>)
    requires WellCut(pieces) && pieces != []
    ensures IsQuote(pieces[0].quote) && NoQuote(pieces[0].body) && WellCut(pieces[1..])
    ensures Uncut(pieces[1..]) == "" <==> |pieces| == 1
    ensures |pieces| > 1 ==> Uncut(pieces[1..])[0] == pieces[1].quote && IsQuote(pieces[1].quote)
  {
  }

  lemma TokenAtFirst(pieces: seq<Piece>, name: string)
    requires WellCut(pieces) && pieces != [] && IsName(name)
    ensures TokenLength(Uncut(pieces), name) == if IsToken(pieces, 0, name) then |pieces[0].body| + 2 else 0
  {
    hide Uncut;
    WellCutRest(pieces);
    JoinFirst(pieces);
    TokenLengthOfPieces(pieces[0].quote, pieces[0].body, Uncut(pieces[1..]), name);
  }

  lemma JoinFirst(pieces: seq<Piece>)
    requires pieces != []
    ensures Uncut(pieces) == [pieces[0].quote] + pieces[0].body + Uncut(pieces[1..])
  {
  }

  lemma BelongsPrefix(body: string, name: string)
    requires Belongs(body, name)
    ensures name <= body
  {
    if body != name { assert body[..|name|] == (name + "/")[..|name|]; }
  }

  /** One first piece, no token: the text up to the next quote is kept. */
  lemma ReplaceKeepsFirst(pieces: seq<Piece>, from: string, to: string)
    requires WellCut(pieces) && pieces != [] && IsName(from) && !IsToken(pieces, 0, from)
    ensures ReplaceTokens(Uncut(pieces), from, to)
        == [pieces[0].quote] + pieces[0].body + ReplaceTokens(Uncut(pieces[1..]), from, to)
  {
    hide Uncut, TokenLength;
    TokenAtFirst(pieces, from);
    WellCutRest(pieces);
    JoinFirst(pieces);
    var q, body, tail := pieces[0].quote, pieces[0].body, Uncut(pieces[1..]);
    var s := [q] + body + tail;
    assert s[1..] == body + tail;
    assert ReplaceTokens(s, from, to) == [q] + ReplaceTokens(body + tail, from, to) by { OneStep(s, from, to); }
    ReplaceSkips(body, tail, from, to);
  }

  /** A token first: it is renamed, and its closing quote opens nothing. */
  lemma ReplaceFirstToken(pieces: seq<Piece>, from: string, to: string)
    requires WellCut(pieces) && IsName(from) && IsToken(pieces, 0, from)
    ensures ReplaceTokens(Uncut(pieces), from, to)
         == [pieces[0].quote] + Renamed(pieces[0].body, from, to)
           + ([pieces[1].quote] + pieces[1].body + ReplaceTokens(Uncut(pieces[2..]), from, to))
  {
    hide Uncut, TokenLength, ReplaceTokens, Belongs, NoSpace, NoQuote;
    TokenAtFirst(pieces, from);
    BelongsPrefix(pieces[0].body, from);
    JoinTwo(pieces);
    assert NoQuote(pieces[1].body);
    var q, body := pieces[0].quote, pieces[0].body;
    var after := pieces[1].body + Uncut(pieces[2..]);
    OneStep(Uncut(pieces), from, to);
    TokenSlices(Uncut(pieces), q, body, after, from);
    ReplaceSkips(pieces[1].body, Uncut(pieces[2..]), from, to);
    RegroupToken([q], to, body[|from|..], pieces[1].body, ReplaceTokens(Uncut(pieces[2..]), from, to));
  }

  lemma JoinTwo(pieces: seq<Piece>)
    requires |pieces| >= 2
    ensures Uncut(pieces)
        == [pieces[0].quote] + pieces[0].body + ([pieces[1].quote] + (pieces[1].body + Uncut(pieces[2..])))
  {
    hide Uncut;
    JoinFirst(pieces);
    JoinFirst(pieces[1..]);
    assert pieces[1..][1..] == pieces[2..];
  }

  lemma RegroupToken(q: string, to: string, sub: string, body: string, done: string)
    ensures q + to + (sub + q) + (body + done) == q + (to + sub) + (q + body + done)
  {
    var left, right := q + to + (sub + q) + (body + done), q + (to + sub) + (q + body + done);
    assert |left| == |right|;
  }

  lemma TokenSlices(s: string, q: char, body: string, after: string, from: string)
    requires s == [q] + body + ([q] + after) && |from| <= |body|
    ensures s[|body| + 2..] == after && s[1 + |from|..|body| + 2] == body[|from|..] + [q]
  {
  }

  /** Replacing in the text is one pass over its pieces. */
  lemma {:induction false} ReplaceIsPass(pieces: seq<Piece>, from: string, to: string)
    requires WellCut(pieces) && IsName(from)
    ensures ReplaceTokens(Uncut(pieces), from, to) == Uncut(Pass(pieces, from, to, false))
    decreases |pieces|
  {
    if pieces != [] {
      hide ReplaceTokens, IsToken, Uncut, Renamed;
      WellCutRest(pieces);
      var passed := Pass(pieces, from, to, false);
      JoinFirst(passed);
      if IsToken(pieces, 0, from) {
        TokenNeedsTwo(pieces, from);
        ReplaceFirstToken(pieces, from, to);
        WellCutRest(pieces[1..]);
        assert pieces[1..][1..] == pieces[2..];
        ReplaceIsPass(pieces[2..], from, to);
        PassTaken(pieces[1..], from, to);
        assert passed[1..] == [pieces[1]] + Pass(pieces[2..], from, to, false);
        JoinFirst(passed[1..]);
        assert passed[1..][1..] == Pass(pieces[2..], from, to, false);
      } else {
        ReplaceKeepsFirst(pieces, from, to);
        ReplaceIsPass(pieces[1..], from, to);
        assert passed[1..] == Pass(pieces[1..], from, to, false);
      }
    }
  }

  lemma TokenNeedsTwo(pieces: seq<Piece>, name: string)
    requires IsToken(pieces, 0, name)
    ensures |pieces| >= 2
  {
  }

  lemma PassTaken(pieces: seq<Piece>, from: string, to: string)
    requires pieces != []
    ensures Pass(pieces, from, to, true) == [pieces[0]] + Pass(pieces[1..], from, to, false)
  {
  }

  // ----- which tokens a pass renames

  /** The `i`-th quote opens a token that the pass renames: one that the token before
      it, when that is renamed too, does not take the quote from. */
  ghost predicate Picked(pieces: seq<Piece>, i: nat, name: string, taken: bool) {
    IsToken(pieces, i, name) && !(if i > 0 then Picked(pieces, i - 1, name, taken) else taken)
  }

  lemma {:induction false} PickedInRest(pieces: seq<Piece>, i: nat, name: string, taken: bool)
    requires pieces != [] && i > 0
    ensures Picked(pieces, i, name, taken) == Picked(pieces[1..], i - 1, name, Picked(pieces, 0, name, taken))
  {
    assert IsToken(pieces, i, name) == IsToken(pieces[1..], i - 1, name);
    if i > 1 { PickedInRest(pieces, i - 1, name, taken); }
  }

  lemma {:induction false} PassAt(pieces: seq<Piece>, from: string, to: string, taken: bool, i: nat)
    requires i < |pieces|
    ensures Pass(pieces, from, to, taken)[i] ==
              if Picked(pieces, i, from, taken) then Piece(pieces[i].quote, Renamed(pieces[i].body, from, to))
              else pieces[i]
    decreases i
  {
    if i > 0 {
      PickedInRest(pieces, i, from, taken);
      PassAt(pieces[1..], from, to, !taken && IsToken(pieces, 0, from), i - 1);
    }
  }

  // ----- all patterns

  ghost predicate Unrelated(a: string, b: string) {
    !Belongs(a, b) && !Belongs(b, a)
  }

  /** Names that no text could be taken for two of. */
  ghost predicate Separate(all: seq<Pattern>) {
    && (forall i :: 0 <= i < |all| ==> IsName(all[i].from) && IsName(all[i].to))
    && (forall i, j :: 0 <= i < j < |all| ==> Unrelated(all[i].from, all[j].from) && Unrelated(all[i].to, all[j].to))
    && (forall i, j :: 0 <= i < |all| && 0 <= j < |all| ==> Unrelated(all[i].from, all[j].to))
  }

  lemma SeparateRest(all: seq<Pattern>)
    requires Separate(all) && all != []
    ensures Separate(all[1..])
  {
  }

  lemma BelongsToOne(body: string, a: string, b: string)
    requires Belongs(body, a) && Belongs(body, b)
    ensures !Unrelated(a, b) || a == b
  {
    BelongsPrefix(body, a);
    BelongsPrefix(body, b);
    if |a| < |b| {
      assert body != a && (a + "/")[..|a| + 1] == body[..|a| + 1] == b[..|a| + 1];
    } else if |b| < |a| {
      assert body != b && (b + "/")[..|b| + 1] == body[..|b| + 1] == a[..|b| + 1];
    } else {
      assert a == body[..|a|] == b;
    }
  }

  lemma RenamedBelongs(body: string, from: string, to: string)
    requires Belongs(body, from) && IsName(to)
    ensures Belongs(Renamed(body, from, to), to)
    ensures NoSpace(body) ==> NoSpace(Renamed(body, from, to))
    ensures NoQuote(body) ==> NoQuote(Renamed(body, from, to))
    ensures Renamed(Renamed(body, from, to), to, from) == body
  {
    BelongsPrefix(body, from);
    var sub := body[|from|..];
    assert body == from + sub;
    if body != from { assert sub[0] == (from + "/")[|from|]; assert to + "/" <= to + sub; }
    assert (to + sub)[|to|..] == sub;
  }

  ghost function PassAll(pieces: seq<Piece>, all: seq<Pattern>): (r: seq<Piece>)
    ensures |r| == |pieces|
    decreases |all|
  {
    if all == [] then pieces else PassAll(Pass(pieces, all[0].from, all[0].to, false), all[1..])
  }

  /** The pattern that renames the `i`-th token, if one does. */
  ghost predicate Renames(pieces: seq<Piece>, all: seq<Pattern>, i: nat, k: nat) {
    k < |all| && Picked(pieces, i, all[k].from, false)
  }

  lemma PassKeepsWellCut(pieces: seq<Piece>, from: string, to: string)
    requires WellCut(pieces) && IsName(to)
    ensures WellCut(Pass(pieces, from, to, false))
  {
    var r := Pass(pieces, from, to, false);
    forall i | 0 <= i < |r| ensures IsQuote(r[i].quote) && NoQuote(r[i].body) {
      PassAt(pieces, from, to, false, i);
      if Picked(pieces, i, from, false) { RenamedBelongs(pieces[i].body, from, to); }
    }
  }

  /** A pass leaves the tokens of every unrelated name as they were. */
  lemma PassKeepsTokens(pieces: seq<Piece>, from: string, to: string, name: string, i: nat)
    requires IsName(to) && Unrelated(name, from) && Unrelated(name, to)
    ensures IsToken(Pass(pieces, from, to, false), i, name) == IsToken(pieces, i, name)
  {
    hide Belongs, Pass, Renamed;
    if i + 1 < |pieces| {
      PassAt(pieces, from, to, false, i);
      PassAt(pieces, from, to, false, i + 1);
      if Picked(pieces, i, from, false) {
        var body := pieces[i].body;
        RenamedBelongs(body, from, to);
        Apart(body, name, from);
        Apart(Renamed(body, from, to), name, to);
      }
    }
  }

  lemma Apart(body: string, a: string, b: string)
    requires Belongs(body, b) && Unrelated(a, b)
    ensures !Belongs(body, a)
  {
    if Belongs(body, a) { BelongsToOne(body, a, b); SelfRelated(a); }
  }

  lemma SelfRelated(a: string)
    ensures !Unrelated(a, a)
  {
  }

  lemma {:induction false} SamePicks(a: seq<Piece>, b: seq<Piece>, name: string, i: nat)
    requires forall j: nat :: j <= i ==> IsToken(a, j, name) == IsToken(b, j, name)
    ensures Picked(a, i, name, false) == Picked(b, i, name, false)
  {
    if i > 0 { SamePicks(a, b, name, i - 1); }
  }

  /** The piece that all patterns together leave at `i`. */
  ghost predicate Left(pieces: seq<Piece>, all: seq<Pattern>, i: nat, left: Piece)
    requires i < |pieces|
  {
    && (forall k: nat :: Renames(pieces, all, i, k) ==>
       left == Piece(pieces[i].quote, Renamed(pieces[i].body, all[k].from, all[k].to)))
    && ((forall k: nat :: !Renames(pieces, all, i, k)) ==> left == pieces[i])
  }

  lemma RestRenames(pieces: seq<Piece>, all: seq<Pattern>, i: nat, k: nat)
    requires Separate(all) && k + 1 < |all|
    ensures Renames(Pass(pieces, all[0].from, all[0].to, false), all[1..], i, k) == Renames(pieces, all, i, k + 1)
  {
    var passed, name := Pass(pieces, all[0].from, all[0].to, false), all[k + 1].from;
    assert Unrelated(all[0].from, name) && Unrelated(name, all[0].to);
    forall j: nat ensures IsToken(passed, j, name) == IsToken(pieces, j, name) {
      PassKeepsTokens(pieces, all[0].from, all[0].to, name, j);
    }
    SamePicks(passed, pieces, name, i);
  }

  lemma FromApart(all: seq<Pattern>, k: nat, l: nat)
    requires Separate(all) && k < |all| && l < |all| && k != l
    ensures Unrelated(all[k].from, all[l].from) && all[k].from != all[l].from
  {
    assert k < l ==> Unrelated(all[k].from, all[l].from);
    assert l < k ==> Unrelated(all[l].from, all[k].from);
    SelfRelated(all[k].from);
  }

  lemma RenamesOnce(pieces: seq<Piece>, all: seq<Pattern>, i: nat, k: nat, l: nat)
    requires Separate(all) && Renames(pieces, all, i, k) && Renames(pieces, all, i, l)
    ensures k == l
  {
    BelongsToOne(pieces[i].body, all[k].from, all[l].from);
    if k != l { FromApart(all, k, l); }
  }

  /** All passes together: each token is renamed by the one pattern that picks it, as
      if the others were not there. */
  lemma {:induction false} PassAllAt(pieces: seq<Piece>, all: seq<Pattern>, i: nat)
    requires Separate(all) && i < |pieces|
    ensures Left(pieces, all, i, PassAll(pieces, all)[i])
    decreases |all|
  {
    hide Picked, Separate, Renamed;
    if all != [] {
      var rest := all[1..];
      var passed := Pass(pieces, all[0].from, all[0].to, false);
      SeparateRest(all);
      PassAllAt(passed, rest, i);
      PassAt(pieces, all[0].from, all[0].to, false, i);
      forall k: nat | k < |rest| ensures Renames(passed, rest, i, k) == Renames(pieces, all, i, k + 1) {
        RestRenames(pieces, all, i, k);
      }
      if Renames(pieces, all, i, 0) {
        forall k: nat | Renames(pieces, all, i, k) ensures k == 0 { RenamesOnce(pieces, all, i, k, 0); }
      } else {
        forall k: nat | Renames(pieces, all, i, k)
          ensures k > 0 && Renames(passed, rest, i, k - 1) && rest[k - 1] == all[k]
        {
        }
      }
    }
  }
}
