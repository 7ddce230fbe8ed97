/** The prose lines of a Markdown text: those outside code blocks that HTML comments do
    not hide entirely. */
module MarkdownProse {
  import opened Sorting
  import opened Text
  import opened Wrappers

  datatype Range = Range(start: nat, end: nat)

  /** A raw HTML node of the parsed text. */
  datatype Html = Html(offset: nat, value: string)

  // ----- the comments of one node

  const OPENER := "<!--"
  const CLOSER := "-->"

  function IndexOf(s: string, t: string, from: nat): (at: Option<nat>)
    ensures at.Some? ==> from <= at.value && Reads(s, at.value, t)
    decreases |s| - from
  {
    if from + |t| > |s| then None else if Reads(s, from, t) then Some(from) else IndexOf(s, t, from + 1)
  }

  /** It is the first position from there on. */
  lemma {:induction false} IndexOfIsFirst(s: string, t: string, from: nat, k: nat)
    requires from <= k && Reads(s, k, t)
    ensures IndexOf(s, t, from).Some? && IndexOf(s, t, from).value <= k
    decreases k - from
  {
    hide Reads;
    ReadsFits(s, k, t);
    if !Reads(s, from, t) { IndexOfIsFirst(s, t, from + 1, k); }
  }

  /** The end of the comment that begins here: after the next closer, or the end. */
  function CommentEnd(value: string, start: nat): (end: nat)
    requires Reads(value, start, OPENER)
    ensures start + 4 <= end <= |value|
  {
    var close := IndexOf(value, CLOSER, start + 4);
    if close.None? then |value| else close.value + 3
  }

  /** The comments from a position on. */
  function CommentsFrom(value: string, cursor: nat): (comments: seq<Range>)
    decreases |value| - cursor
  {
    var start := IndexOf(value, OPENER, cursor);
    if start.None? then []
    else [Range(start.value, CommentEnd(value, start.value))] + CommentsFrom(value, CommentEnd(value, start.value))
  }

  ghost predicate Inside(ranges: seq<Range>, p: int) {
    exists r :: r in ranges && r.start <= p < r.end
  }

  lemma InsideFirst(first: Range, rest: seq<Range>, p: int)
    ensures Inside([first] + rest, p) <==> first.start <= p < first.end || Inside(rest, p)
  {
    assert forall r :: r in [first] + rest <==> r == first || r in rest;
  }

  /** A closer stands at `k`, and none between the opener at `start` and there. */
  ghost predicate NextCloser(value: string, start: nat, k: nat) {
    k >= start + 4 && Reads(value, k, CLOSER) && forall j :: start + 4 <= j < k ==> !Reads(value, j, CLOSER)
  }

  /** Each comment begins with an opener and ends behind the next closer, or with the text. */
  ghost predicate IsComment(value: string, r: Range) {
    && Reads(value, r.start, OPENER)
    && if exists k: nat :: NextCloser(value, r.start, k) then r.end >= 3 && NextCloser(value, r.start, r.end - 3)
       else r.end == |value|
  }

  lemma EndIsNextCloser(value: string, start: nat)
    requires Reads(value, start, OPENER)
    ensures IsComment(value, Range(start, CommentEnd(value, start)))
  {
    hide IndexOf;
    forall k: nat | k >= start + 4 && Reads(value, k, CLOSER)
      ensures IndexOf(value, CLOSER, start + 4).Some? && IndexOf(value, CLOSER, start + 4).value <= k
    {
      IndexOfIsFirst(value, CLOSER, start + 4, k);
    }
    hide Reads;
    var close := IndexOf(value, CLOSER, start + 4);
    if close.Some? { assert NextCloser(value, start, close.value); }
  }

  lemma {:induction false} CommentsAreComments(value: string, cursor: nat, i: nat)
    requires i < |CommentsFrom(value, cursor)|
    ensures cursor <= CommentsFrom(value, cursor)[i].start && IsComment(value, CommentsFrom(value, cursor)[i])
    decreases i
  {
    hide IndexOf, Reads, IsComment;
    var start := IndexOf(value, OPENER, cursor).value;
    if i > 0 { CommentsAreComments(value, CommentEnd(value, start), i - 1); } else { EndIsNextCloser(value, start); }
  }

  lemma {:induction false} CommentsFollow(value: string, cursor: nat, i: nat, j: nat)
    requires i < j < |CommentsFrom(value, cursor)|
    ensures CommentsFrom(value, cursor)[i].end <= CommentsFrom(value, cursor)[j].start
    decreases i
  {
    hide IndexOf, Reads;
    var start := IndexOf(value, OPENER, cursor).value;
    var end := CommentEnd(value, start);
    if i > 0 { CommentsFollow(value, end, i - 1, j - 1); } else { CommentsAreComments(value, end, j - 1); }
  }

  lemma {:induction false} OpenersAreInside(value: string, cursor: nat, p: nat)
    requires cursor <= p && Reads(value, p, OPENER)
    ensures Inside(CommentsFrom(value, cursor), p)
    decreases |value| - cursor
  {
    hide IndexOf, Reads, Inside;
    IndexOfIsFirst(value, OPENER, cursor, p);
    var start := IndexOf(value, OPENER, cursor).value;
    var end := CommentEnd(value, start);
    InsideFirst(Range(start, end), CommentsFrom(value, end), p);
    if p >= end { OpenersAreInside(value, end, p); }
  }

  /** The comments found in a node: from one opener to the next closer or the end, one
      after the other, and no opener outside them. */
  lemma CommentsExact(value: string)
    ensures var comments := CommentsFrom(value, 0);
            && (forall i :: 0 <= i < |comments| ==> IsComment(value, comments[i]))
            && (forall i, j :: 0 <= i < j < |comments| ==> comments[i].end <= comments[j].start)
            && (forall p: nat :: Reads(value, p, OPENER) ==> Inside(comments, p))
  {
    hide CommentsFrom, Reads, Inside, IsComment;
    var comments := CommentsFrom(value, 0);
    forall i | 0 <= i < |comments| ensures IsComment(value, comments[i]) { CommentsAreComments(value, 0, i); }
    forall i, j | 0 <= i < j < |comments| ensures comments[i].end <= comments[j].start {
      CommentsFollow(value, 0, i, j);
    }
    forall p: nat | Reads(value, p, OPENER) ensures Inside(comments, p) { OpenersAreInside(value, 0, p); }
  }

  method FindComments(node: Html) returns (comments: seq<Range>)
    ensures comments == Shifted(CommentsFrom(node.value, 0), node.offset)
  {
    hide CommentsFrom, Reads, IndexOf, Shifted;
    comments := [];
    var cursor := 0;
    while true
      invariant cursor <= |node.value|
      invariant Shifted(CommentsFrom(node.value, 0), node.offset)
          == comments + Shifted(CommentsFrom(node.value, cursor), node.offset)
      decreases |node.value| - cursor
    {
      var start := IndexOf(node.value, OPENER, cursor);
      NextComment(node.value, cursor, node.offset);
      if start.None? { return; }
      var end := CommentEnd(node.value, start.value);
      comments := comments + [Range(node.offset + start.value, node.offset + end)];
      cursor := end;
    }
  }

  function Shifted(ranges: seq<Range>, offset: nat): (r: seq<Range>)
    ensures |r| == |ranges| && forall i :: 0 <= i < |r| ==>
        r[i] == Range(offset + ranges[i].start, offset + ranges[i].end)
  {
    if ranges == [] then []
    else [Range(offset + ranges[0].start, offset + ranges[0].end)] + Shifted(ranges[1..], offset)
  }

  lemma NextComment(value: string, cursor: nat, offset: nat)
    ensures var start := IndexOf(value, OPENER, cursor);
            Shifted(CommentsFrom(value, cursor), offset) ==
              if start.None? then []
              else
                var end := CommentEnd(value, start.value);
                [Range(offset + start.value, offset + end)] + Shifted(CommentsFrom(value, end), offset)
  {
    hide Reads, IndexOf;
    var start := IndexOf(value, OPENER, cursor);
    if start.Some? {
      var end := CommentEnd(value, start.value);
      ShiftedFirst(Range(start.value, end), CommentsFrom(value, end), offset);
    }
  }

  lemma ShiftedFirst(first: Range, rest: seq<Range>, offset: nat)
    ensures Shifted([first] + rest, offset) == [Range(offset + first.start, offset + first.end)] + Shifted(rest, offset)
  {
    assert ([first] + rest)[1..] == rest;
  }

  // ----- comments by line

  /** Where the `n`-th line begins, the lines being joined by line feeds. */
  function LineOffset(lines: seq<string>, n: nat): nat
    requires n <= |lines|
  {
    if n == 0 then 0 else LineOffset(lines, n - 1) + |lines[n - 1]| + 1
  }

  function Max(a: nat, b: nat): nat {
    if a < b then b else a
  }

  function Min(a: nat, b: nat): nat {
    if a < b then a else b
  }

  /** A comment touches a line when it covers one of its characters, or an empty line's end. */
  predicate Touches(c: Range, offset: nat, length: nat) {
    Max(c.start, offset) < Min(c.end, offset + length) || (length == 0 && c.start <= offset && c.end > offset)
  }

  function Clipped(c: Range, offset: nat, length: nat): Range
    requires Touches(c, offset, length)
  {
    Range(Max(c.start, offset) - offset, Min(c.end, offset + length) - offset)
  }

  /** The column ranges recorded for one line. */
  function Recorded(comments: seq<Range>, offset: nat, length: nat): (ranges: seq<Range>)
    ensures forall r :: r in ranges ==> r.start <= r.end <= length
  {
    if comments == [] then []
    else
      var first := if Touches(comments[0], offset, length) then [Clipped(comments[0], offset, length)] else [];
      first + Recorded(comments[1..], offset, length)
  }

  lemma RecordedAppends(comments: seq<Range>, c: Range, offset: nat, length: nat)
    ensures Recorded(comments + [c], offset, length)
         == Recorded(comments, offset, length) + if Touches(c, offset, length) then [Clipped(c, offset, length)] else []
  {
    if comments != [] {
      assert (comments + [c])[1..] == comments[1..] + [c];
      RecordedAppends(comments[1..], c, offset, length);
    } else {
      assert comments + [c] == [c];
    }
  }

  /** A character of the line lies in a comment exactly when its column is recorded. */
  lemma {:induction false} RecordedExactly(comments: seq<Range>, offset: nat, length: nat, column: nat)
    requires column < length
    ensures Inside(Recorded(comments, offset, length), column) <==> Inside(comments, offset + column)
  {
    if comments != [] {
      RecordedExactly(comments[1..], offset, length, column);
      var c, rest := comments[0], Recorded(comments[1..], offset, length);
      var first := if Touches(c, offset, length) then [Clipped(c, offset, length)] else [];
      assert forall r :: r in first + rest <==> r in first || r in rest;
      assert forall r :: r in comments <==> r == c || r in comments[1..];
      assert c.start <= offset + column < c.end <==> first != [] && first[0].start <= column < first[0].end;
      assert Inside(first + rest, column) <==> Inside(first, column) || Inside(rest, column);
      assert Inside(comments, offset + column) <==>
        Inside([c], offset + column) || Inside(comments[1..], offset + column);
      assert c in [c];
      assert first != [] ==> first[0] in first;
    }
  }

  lemma NothingRecorded(comments: seq<Range>, offset: nat, length: nat)
    ensures Recorded(comments, offset, length) == [] <==> forall c :: c in comments ==> !Touches(c, offset, length)
  {
    if comments != [] {
      NothingRecorded(comments[1..], offset, length);
      assert forall c :: c in comments <==> c == comments[0] || c in comments[1..];
    }
  }

  /** The map from 1-based line numbers to ranges; a line that no comment touches has no entry. */
  ghost predicate IsRangeMap(lines: seq<string>, comments: seq<Range>, n: nat, ranges: map<nat, seq<Range>>)
    requires n <= |lines|
  {
    && (forall k: nat :: k in ranges ==> 1 <= k <= n)
    && (forall i: nat :: i < n ==> EntryOf(lines, comments, ranges, i))
  }

  ghost predicate EntryOf(lines: seq<string>, comments: seq<Range>, ranges: map<nat, seq<Range>>, i: nat)
    requires i < |lines|
  {
    var recorded := Recorded(comments, LineOffset(lines, i), |lines[i]|);
    if recorded == [] then i + 1 !in ranges else i + 1 in ranges && ranges[i + 1] == recorded
  }

  /** One line's inner loop: the map gains the ranges recorded for it, if there are any. */
  method RecordLine(before: map<nat, seq<Range>>, comments: seq<Range>, index: nat, lineOffset: nat, raw: string)
    returns (ranges: map<nat, seq<Range>>)
    requires index !in before
    ensures var recorded := Recorded(comments, lineOffset, |raw|);
            ranges == if recorded == [] then before else before[index := recorded]
  {
    hide Recorded;
    ranges := before;
    var lineEnd := lineOffset + |raw|;
    assert comments[..0] == [] && Recorded([], lineOffset, |raw|) == [] by { NothingRecorded([], lineOffset, |raw|); }
    for k := 0 to |comments|
      invariant var recorded := Recorded(comments[..k], lineOffset, |raw|);
                ranges == if recorded == [] then before else before[index := recorded]
    {
      var c := comments[k];
      assert comments[..k + 1] == comments[..k] + [c];
      RecordedAppends(comments[..k], c, lineOffset, |raw|);
      ghost var recorded := Recorded(comments[..k], lineOffset, |raw|);
      assert recorded + [] == recorded;
      var from, until := Max(c.start, lineOffset), Min(c.end, lineEnd);
      var coversEmptyLine := |raw| == 0 && c.start <= lineOffset && c.end > lineOffset;
      if from < until || coversEmptyLine {
        var lineRanges := if index in ranges then ranges[index] else [];
        assert lineRanges == recorded && Clipped(c, lineOffset, |raw|) == Range(from - lineOffset, until - lineOffset);
        SetTwice(before, index, lineRanges, lineRanges + [Range(from - lineOffset, until - lineOffset)]);
        ranges := ranges[index := lineRanges + [Range(from - lineOffset, until - lineOffset)]];
      }
    }
    assert comments[..|comments|] == comments;
  }

  lemma SetTwice(m: map<nat, seq<Range>>, index: nat, a: seq<Range>, b: seq<Range>)
    ensures m[index := a][index := b] == m[index := b]
  {
  }

  lemma LineRecorded(lines: seq<string>, comments: seq<Range>, i: nat, before: map<nat, seq<Range>>,
        ranges: map<nat, seq<Range>>)
    requires i < |lines| && IsRangeMap(lines, comments, i, before)
    requires var recorded := Recorded(comments, LineOffset(lines, i), |lines[i]|);
             ranges == if recorded == [] then before else before[i + 1 := recorded]
    ensures IsRangeMap(lines, comments, i + 1, ranges)
  {
    hide Recorded, LineOffset;
    forall j: nat | j < i ensures EntryOf(lines, comments, ranges, j) {
      assert EntryOf(lines, comments, before, j);
    }
  }

  lemma NotYetRecorded(lines: seq<string>, comments: seq<Range>, i: nat, ranges: map<nat, seq<Range>>)
    requires i < |lines| && IsRangeMap(lines, comments, i, ranges)
    ensures i + 1 !in ranges
  {
  }

  method HtmlCommentRanges(lines: seq<string>, comments: seq<Range>) returns (ranges: map<nat, seq<Range>>)
    ensures IsRangeMap(lines, comments, |lines|, ranges)
  {
    ranges := map[];
    var lineOffset := 0;
    assert IsRangeMap(lines, comments, 0, ranges);
    hide IsRangeMap, Recorded;
    for i := 0 to |lines|
      invariant lineOffset == LineOffset(lines, i) && IsRangeMap(lines, comments, i, ranges)
    {
      NotYetRecorded(lines, comments, i, ranges);
      ghost var before := ranges;
      ranges := RecordLine(ranges, comments, i + 1, lineOffset, lines[i]);
      LineRecorded(lines, comments, i, before, ranges);
      lineOffset := lineOffset + |lines[i]| + 1;
    }
  }

  // ----- what remains visible

  /** The characters of the first `n` columns that no range covers. */
  ghost function Outside(raw: string, ranges: seq<Range>, n: nat): string
    requires n <= |raw|
  {
    if n == 0 then "" else Outside(raw, ranges, n - 1) + if Inside(ranges, n - 1) then "" else [raw[n - 1]]
  }

  lemma {:induction false} KeptColumns(raw: string, ranges: seq<Range>, from: nat, until: nat)
    requires from <= until <= |raw| && forall p :: from <= p < until ==> !Inside(ranges, p)
    ensures Outside(raw, ranges, until) == Outside(raw, ranges, from) + raw[from..until]
    decreases until - from
  {
    if from < until {
      KeptColumns(raw, ranges, from, until - 1);
      assert raw[from..until] == raw[from..until - 1] + [raw[until - 1]];
    }
  }

  lemma {:induction false} CoveredColumns(raw: string, ranges: seq<Range>, from: nat, until: nat)
    requires from <= until <= |raw| && forall p :: from <= p < until ==> Inside(ranges, p)
    ensures Outside(raw, ranges, until) == Outside(raw, ranges, from)
    decreases until - from
  {
    if from < until { CoveredColumns(raw, ranges, from, until - 1); }
  }

  function ByStart(): (Range, Range) -> int {
    (left: Range, right: Range) => left.start - right.start
  }

  /** `slice(from, until)`: empty when the bounds cross. */
  function Slice(s: string, from: nat, until: nat): string
    requires from <= |s| && until <= |s|
  {
    if from <= until then s[from..until] else ""
  }

  /** The sweep leaves exactly the characters outside all ranges, overlapping ones too. */
  method VisibleText(raw: string, ranges: seq<Range>) returns (visible: string)
    requires forall r :: r in ranges ==> r.start <= r.end <= |raw|
    ensures visible == Outside(raw, ranges, |raw|)
  {
    assert Outside(raw, ranges, 0) == "";
    hide Outside, Inside, Orders;
    var sorted, order := StableSort(ranges, ByStart());
    var cursor: nat := 0;
    visible := "";
    for k := 0 to |sorted|
      invariant cursor <= |raw| && visible == Outside(raw, ranges, cursor)
      invariant forall i :: 0 <= i < k ==> sorted[i].end <= cursor
    {
      var r := sorted[k];
      assert r in ranges;
      SweepStep(raw, ranges, sorted, k, cursor);
      visible := visible + Slice(raw, cursor, r.start);
      cursor := Max(cursor, r.end);
    }
    SweepEnds(raw, ranges, sorted, cursor);
    visible := visible + raw[cursor..];
  }

  lemma SweepEnds(raw: string, ranges: seq<Range>, sorted: seq<Range>, cursor: nat)
    requires cursor <= |raw| && (forall r :: r in sorted <==> r in ranges)
        && forall i :: 0 <= i < |sorted| ==> sorted[i].end <= cursor
    ensures Outside(raw, ranges, |raw|) == Outside(raw, ranges, cursor) + raw[cursor..]
  {
    forall r | r in ranges ensures r.end <= cursor {
      assert r in sorted;
    }
    KeptColumns(raw, ranges, cursor, |raw|);
  }

  lemma SweepStep(raw: string, ranges: seq<Range>, sorted: seq<Range>, k: nat, cursor: nat)
    requires k < |sorted| && cursor <= |raw|
    requires (forall r :: r in ranges ==> r.start <= r.end <= |raw|) && forall r :: r in sorted <==> r in ranges
    requires forall i, j :: 0 <= i < j < |sorted| ==> sorted[i].start <= sorted[j].start
    requires forall i :: 0 <= i < k ==> sorted[i].end <= cursor
    ensures sorted[k].start <= sorted[k].end <= |raw|
    ensures Outside(raw, ranges, Max(cursor, sorted[k].end))
        == Outside(raw, ranges, cursor) + Slice(raw, cursor, sorted[k].start)
  {
    var r := sorted[k];
    assert r in sorted;
    forall q | q in ranges ensures q.end <= cursor || r.start <= q.start {
      assert q in sorted;
      var i :| 0 <= i < |sorted| && sorted[i] == q;
    }
    if cursor <= r.start { KeptColumns(raw, ranges, cursor, r.start); }
    CoveredColumns(raw, ranges, Max(cursor, r.start), Max(cursor, r.end));
  }

  ghost predicate HasText(s: string) {
    exists c :: c in s && !IsSpace(c)
  }

  lemma {:induction false} TextOutside(raw: string, ranges: seq<Range>, n: nat)
    requires n <= |raw|
    ensures HasText(Outside(raw, ranges, n)) <==> exists p :: 0 <= p < n && !IsSpace(raw[p]) && !Inside(ranges, p)
  {
    if n > 0 {
      TextOutside(raw, ranges, n - 1);
      var before := Outside(raw, ranges, n - 1);
      var last := if Inside(ranges, n - 1) then "" else [raw[n - 1]];
      assert forall c :: c in before + last <==> c in before || c in last;
      assert last != "" ==> last[0] in last;
    }
  }

  /** Some column holds neither a space nor anything in these ranges. */
  ghost predicate ShowsText(raw: string, ranges: seq<Range>) {
    exists p :: 0 <= p < |raw| && !IsSpace(raw[p]) && !Inside(ranges, p)
  }

  // ----- the prose lines

  datatype ProseLine = ProseLine(index: nat, raw: string)

  method HasRenderedText(raw: string, ranges: Option<seq<Range>>) returns (rendered: bool)
    requires ranges.Some? ==> forall r :: r in ranges.value ==> r.start <= r.end <= |raw|
    ensures rendered <==> ranges.None? || ShowsText(raw, ranges.value)
  {
    if ranges.None? { return true; }
    var visible := VisibleText(raw, ranges.value);
    TextOutside(raw, ranges.value, |raw|);
    rendered := AfterSpaces(visible, 0) < |visible|;
    if !rendered { assert forall c :: c in visible ==> exists k :: 0 <= k < |visible| && visible[k] == c; }
  }

  /** In terms of the source: a line is kept when no code block covers it and either no
      comment touches it or one of its characters is neither space nor in a comment. */
  ghost predicate IsProse(lines: seq<string>, comments: seq<Range>, fenced: set<nat>, i: nat)
    requires i < |lines|
  {
    && i + 1 !in fenced
    && (Untouched(comments, LineOffset(lines, i), |lines[i]|)
        || exists p :: 0 <= p < |lines[i]| && !IsSpace(lines[i][p]) && !Inside(comments, LineOffset(lines, i) + p))
  }

  /** The positions of a line: those of its characters; of an empty line, its end. */
  predicate IsOnLine(q: nat, offset: nat, length: nat) {
    offset <= q < offset + if length == 0 then 1 else length
  }

  ghost predicate Untouched(comments: seq<Range>, offset: nat, length: nat) {
    forall q: nat :: IsOnLine(q, offset, length) ==> !Inside(comments, q)
  }

  lemma TouchesSome(c: Range, offset: nat, length: nat) returns (q: nat)
    requires Touches(c, offset, length)
    ensures IsOnLine(q, offset, length) && c.start <= q < c.end
  {
    q := Max(c.start, offset);
  }

  lemma UntouchedIs(comments: seq<Range>, offset: nat, length: nat)
    ensures Untouched(comments, offset, length) <==> forall c :: c in comments ==> !Touches(c, offset, length)
  {
    if !Untouched(comments, offset, length) {
      var q: nat :| IsOnLine(q, offset, length) && Inside(comments, q);
      var c :| c in comments && c.start <= q < c.end;
      assert Touches(c, offset, length);
    }
    if c :| c in comments && Touches(c, offset, length) {
      var q := TouchesSome(c, offset, length);
      assert Inside(comments, q);
    }
  }

  ghost function ProseLines(lines: seq<string>, comments: seq<Range>, fenced: set<nat>, n: nat): seq<ProseLine>
    requires n <= |lines|
  {
    if n == 0 then []
    else ProseLines(lines, comments, fenced, n - 1) + if IsProse(lines, comments, fenced, n - 1) then
      [ProseLine(n, lines[n - 1])] else []
  }

  lemma RenderedIsProse(lines: seq<string>, comments: seq<Range>, i: nat)
    requires i < |lines|
    ensures var recorded := Recorded(comments, LineOffset(lines, i), |lines[i]|);
            && (ShowsText(lines[i], recorded) <==>
                exists p ::
                  0 <= p < |lines[i]| && !IsSpace(lines[i][p]) && !Inside(comments, LineOffset(lines, i) + p))
            && (recorded == [] <==> Untouched(comments, LineOffset(lines, i), |lines[i]|))
  {
    hide Untouched, Touches;
    var offset, length := LineOffset(lines, i), |lines[i]|;
    NothingRecorded(comments, offset, length);
    UntouchedIs(comments, offset, length);
    forall p: nat | p < length ensures Inside(Recorded(comments, offset, length), p) <==> Inside(comments, offset + p) {
      RecordedExactly(comments, offset, length, p);
    }
  }

  /** All comments of the raw HTML nodes, in order. */
  function AllComments(nodes: seq<Html>): seq<Range> {
    if nodes == [] then [] else Shifted(CommentsFrom(nodes[0].value, 0), nodes[0].offset) + AllComments(nodes[1..])
  }

  method GatherComments(nodes: seq<Html>) returns (comments: seq<Range>)
    ensures comments == AllComments(nodes)
  {
    hide Shifted, CommentsFrom;
    comments := [];
    assert nodes[0..] == nodes;
    for n := 0 to |nodes|
      invariant AllComments(nodes) == comments + AllComments(nodes[n..])
    {
      var found := FindComments(nodes[n]);
      assert nodes[n..][0] == nodes[n] && nodes[n..][1..] == nodes[n + 1..];
      comments := comments + found;
    }
  }

  // ----- comments of the source

  function Source(lines: seq<string>): string {
    if lines == [] then "" else if |lines| == 1 then lines[0] else lines[0] + "\n" + Source(lines[1..])
  }

  /** Each line stands at its offset. */
  lemma {:induction false} LineStands(lines: seq<string>, i: nat)
    requires i < |lines|
    ensures LineOffset(lines, i) + |lines[i]| <= |Source(lines)|
    ensures Source(lines)[LineOffset(lines, i)..LineOffset(lines, i) + |lines[i]|] == lines[i]
  {
    if i > 0 {
      LineStands(lines[1..], i - 1);
      OffsetInRest(lines, i);
      assert Source(lines) == lines[0] + "\n" + Source(lines[1..]);
    }
  }

  lemma {:induction false} OffsetInRest(lines: seq<string>, i: nat)
    requires 0 < i <= |lines|
    ensures LineOffset(lines, i) == |lines[0]| + 1 + LineOffset(lines[1..], i - 1)
  {
    if i > 1 { OffsetInRest(lines, i - 1); }
  }

  /** The characters of the node stand at these places of the source, in order. In a block
      quote or a list item the parser drops the beginnings of lines, so places are skipped. */
  ghost predicate StandsAt(source: string, node: Html, places: seq<nat>) {
    && |places| == |node.value|
    && (places != [] ==> places[0] == node.offset)
    && (forall k :: 0 <= k < |places| ==> places[k] < |source| && source[places[k]] == node.value[k])
    && (forall j, k :: 0 <= j < k < |places| ==> places[j] < places[k])
  }

  ghost predicate AllStand(source: string, nodes: seq<Html>, places: seq<seq<nat>>) {
    |places| == |nodes| && forall k :: 0 <= k < |nodes| ==> StandsAt(source, nodes[k], places[k])
  }

  predicate FitsIn(c: Range, length: nat) {
    c.start < c.end <= length
  }

  /** What a comment of a node spans in the source. */
  function SpanOf(places: seq<nat>, c: Range): Range {
    if FitsIn(c, |places|) then Range(places[c.start], places[c.end - 1] + 1) else c
  }

  function Spans(places: seq<nat>, comments: seq<Range>): (spans: seq<Range>)
    ensures |spans| == |comments| && forall i :: 0 <= i < |spans| ==> spans[i] == SpanOf(places, comments[i])
  {
    if comments == [] then [] else [SpanOf(places, comments[0])] + Spans(places, comments[1..])
  }

  lemma CommentsFit(value: string)
    ensures var comments := CommentsFrom(value, 0);
            forall i :: 0 <= i < |comments| ==> FitsIn(comments[i], |value|)
  {
    hide CommentsFrom;
    forall i | 0 <= i < |CommentsFrom(value, 0)| ensures FitsIn(CommentsFrom(value, 0)[i], |value|) {
      CommentsAreComments(value, 0, i);
    }
  }

  /** All comments, where they stand in the source. */
  ghost function SourceComments(nodes: seq<Html>, places: seq<seq<nat>>): seq<Range>
    requires |places| == |nodes|
  {
    if nodes == [] then []
    else Spans(places[0], CommentsFrom(nodes[0].value, 0)) + SourceComments(nodes[1..], places[1..])
  }

  /** Nothing is dropped before the end of the comment. */
  predicate CommentAligned(node: Html, places: seq<nat>, c: Range) {
    0 < c.end <= |places| && places[c.end - 1] == node.offset + c.end - 1
  }

  ghost predicate Aligned(node: Html, places: seq<nat>) {
    var comments := CommentsFrom(node.value, 0);
    forall i :: 0 <= i < |comments| ==> CommentAligned(node, places, comments[i])
  }

  ghost predicate AllAligned(nodes: seq<Html>, places: seq<seq<nat>>)
    requires |places| == |nodes|
  {
    forall k :: 0 <= k < |nodes| ==> Aligned(nodes[k], places[k])
  }

  lemma PlacesGrow(source: string, node: Html, places: seq<nat>, j: nat, k: nat)
    requires StandsAt(source, node, places) && j <= k < |places|
    ensures places[k] >= places[j] + (k - j) && places[j] >= node.offset + j
  {
    if j > 0 { PlacesGrow(source, node, places, j - 1, j - 1); }
    if j < k { PlacesGrow(source, node, places, j, k - 1); }
  }

  lemma SpansAligned(node: Html, places: seq<nat>, comments: seq<Range>)
    requires comments == CommentsFrom(node.value, 0)
    requires forall i :: 0 <= i < |comments| ==> FitsIn(comments[i], |places|)
    requires Shifted(comments, node.offset) == Spans(places, comments)
    ensures Aligned(node, places)
  {
    hide CommentsFrom;
    forall i | 0 <= i < |comments| ensures CommentAligned(node, places, comments[i]) {
      assert Shifted(comments, node.offset)[i] == Spans(places, comments)[i];
    }
  }

  lemma AlignedSpan(source: string, node: Html, places: seq<nat>, c: Range)
    requires StandsAt(source, node, places) && FitsIn(c, |places|) && CommentAligned(node, places, c)
    ensures SpanOf(places, c) == Range(node.offset + c.start, node.offset + c.end)
  {
    PlacesGrow(source, node, places, c.start, c.end - 1);
  }

  lemma AlignedSpans(source: string, node: Html, places: seq<nat>, comments: seq<Range>)
    requires StandsAt(source, node, places) && comments == CommentsFrom(node.value, 0) && Aligned(node, places)
    requires forall i :: 0 <= i < |comments| ==> FitsIn(comments[i], |places|)
    ensures Shifted(comments, node.offset) == Spans(places, comments)
  {
    hide CommentsFrom, StandsAt, SpanOf, FitsIn, CommentAligned;
    forall i | 0 <= i < |comments| ensures Shifted(comments, node.offset)[i] == Spans(places, comments)[i] {
      AlignedSpan(source, node, places, comments[i]);
    }
  }

  /** The comments are taken where they stand exactly when no node drops anything before the
      end of its last comment. */
  lemma {:induction false} CommentsStandIff(source: string, nodes: seq<Html>, places: seq<seq<nat>>)
    requires AllStand(source, nodes, places)
    ensures AllComments(nodes) == SourceComments(nodes, places) <==> AllAligned(nodes, places)
  {
    hide Shifted, CommentsFrom, Spans, Aligned;
    if nodes != [] {
      CommentsFit(nodes[0].value);
      var comments := CommentsFrom(nodes[0].value, 0);
      if Aligned(nodes[0], places[0]) { AlignedSpans(source, nodes[0], places[0], comments); }
      if Shifted(comments, nodes[0].offset) == Spans(places[0], comments) {
        SpansAligned(nodes[0], places[0], comments);
      }
      CommentsStandIff(source, nodes[1..], places[1..]);
      var a, b := Shifted(CommentsFrom(nodes[0].value, 0), nodes[0].offset),
        Spans(places[0], CommentsFrom(nodes[0].value, 0));
      SameParts(a, AllComments(nodes[1..]), b, SourceComments(nodes[1..], places[1..]));
      forall k | 0 <= k < |nodes| - 1 ensures nodes[1..][k] == nodes[k + 1] && places[1..][k] == places[k + 1] {}
      assert AllAligned(nodes, places) <==> Aligned(nodes[0], places[0]) && AllAligned(nodes[1..], places[1..]) by {
        if Aligned(nodes[0], places[0]) && AllAligned(nodes[1..], places[1..]) {
          forall k | 0 <= k < |nodes| ensures Aligned(nodes[k], places[k]) {
            if k > 0 { assert Aligned(nodes[1..][k - 1], places[1..][k - 1]); }
          }
        }
      }
    }
  }

  lemma SameParts(a: seq<Range>, rest: seq<Range>, b: seq<Range>, rest': seq<Range>)
    requires |a| == |b|
    ensures a + rest == b + rest' <==> a == b && rest == rest'
  {
    if a + rest == b + rest' {
      assert a == (a + rest)[..|a|] && b == (b + rest')[..|b|];
      assert rest == (a + rest)[|a|..] && rest' == (b + rest')[|b|..];
    }
  }

  /** The text as its lines, the raw HTML nodes of its tree, the line numbers of its code
      blocks. Lines are judged by the comments of the source where these are taken where
      they stand. */
  method MarkdownProseLines(lines: seq<string>, nodes: seq<Html>, fenced: set<nat>) returns (kept: seq<ProseLine>)
    ensures kept == ProseLines(lines, AllComments(nodes), fenced, |lines|)
    ensures forall places :: AllStand(Source(lines), nodes, places) && AllAligned(nodes, places) ==>
              kept == ProseLines(lines, SourceComments(nodes, places), fenced, |lines|)
  {
    forall places | AllStand(Source(lines), nodes, places) && AllAligned(nodes, places)
      ensures AllComments(nodes) == SourceComments(nodes, places)
    {
      CommentsStandIff(Source(lines), nodes, places);
    }
    hide AllStand, AllAligned, SourceComments, Source;
    hide Recorded, Untouched, AllComments, Inside, IsProse, IsSpace;
    var comments := GatherComments(nodes);
    var ranges := HtmlCommentRanges(lines, comments);
    kept := [];
    for i := 0 to |lines|
      invariant kept == ProseLines(lines, comments, fenced, i)
    {
      LineIsProse(lines, comments, fenced, ranges, i);
      if i + 1 !in fenced {
        var rendered := HasRenderedText(lines[i], if i + 1 in ranges then Some(ranges[i + 1]) else None);
        if rendered { kept := kept + [ProseLine(i + 1, lines[i])]; }
      }
    }
  }

  lemma LineIsProse(lines: seq<string>, comments: seq<Range>, fenced: set<nat>, ranges: map<nat, seq<Range>>, i: nat)
    requires i < |lines| && IsRangeMap(lines, comments, |lines|, ranges)
    ensures i + 1 in ranges ==> forall r :: r in ranges[i + 1] ==> r.start <= r.end <= |lines[i]|
    ensures IsProse(lines, comments, fenced, i) <==>
        i + 1 !in fenced && (i + 1 !in ranges || ShowsText(lines[i], ranges[i + 1]))
  {
    hide Untouched, Inside, IsSpace, Recorded;
    assert EntryOf(lines, comments, ranges, i);
    RecordedFits(comments, LineOffset(lines, i), |lines[i]|);
    RenderedIsProse(lines, comments, i);
  }

  lemma RecordedFits(comments: seq<Range>, offset: nat, length: nat)
    ensures forall r :: r in Recorded(comments, offset, length) ==> r.start <= r.end <= length
  {
  }

  // ----- a node that is not aligned

  const ITEM: seq<string> := ["- <!-- a", "  b -->"]
  const ITEM_NODE := Html(2, "<!-- a\nb -->")
  const ITEM_PLACES: seq<nat> := [2, 3, 4, 5, 6, 7, 8, 11, 12, 13, 14, 15]

  lemma ItemStands()
    ensures AllStand(Source(ITEM), [ITEM_NODE], [ITEM_PLACES])
  {
    assert ITEM[1..] == ["  b -->"];
    assert Source(ITEM) == "- <!-- a\n  b -->";
  }

  lemma ItemCloses()
    ensures IndexOf(ITEM_NODE.value, CLOSER, 4) == Some(9)
  {
    var value := ITEM_NODE.value;
    assert Reads(value, 9, CLOSER);
    IndexOfIsFirst(value, CLOSER, 4, 9);
    hide IndexOf;
    var close := IndexOf(value, CLOSER, 4).value;
    assert value[close + 0] == CLOSER[0] == '-';
    assert value[4] != '-' && value[5] != '-' && value[6] != '-' && value[7] != '-' && value[8] != '-';
  }

  lemma ItemComment()
    ensures CommentsFrom(ITEM_NODE.value, 0) == [Range(0, 12)]
  {
    var value := ITEM_NODE.value;
    assert |value| == 12 && Reads(value, 0, OPENER);
    ItemCloses();
    hide Reads;
    assert IndexOf(value, OPENER, 0) == Some(0);
    assert CommentEnd(value, 0) == 12;
    assert IndexOf(value, OPENER, 12).None? && CommentsFrom(value, 12) == [];
  }

  /** A comment in a list item, over two lines: the second line is all comment and kept all
      the same, because the item's indentation is dropped from the node. */
  lemma ItemLineKept()
    ensures AllStand(Source(ITEM), [ITEM_NODE], [ITEM_PLACES])
    ensures IsProse(ITEM, AllComments([ITEM_NODE]), {}, 1)
        && !IsProse(ITEM, SourceComments([ITEM_NODE], [ITEM_PLACES]), {}, 1)
  {
    ItemStands();
    ItemComment();
    hide CommentsFrom;
    assert AllComments([ITEM_NODE]) == [Range(2, 14)];
    assert SourceComments([ITEM_NODE], [ITEM_PLACES]) == [Range(2, 16)];
    assert LineOffset(ITEM, 0) == 0 && LineOffset(ITEM, 1) == 9 && |ITEM[1]| == 7;
    assert !IsSpace(ITEM[1][5]) && !Inside([Range(2, 14)], 9 + 5);
    assert IsOnLine(9, 9, 7) && Inside([Range(2, 16)], 9);
    forall q: int | 9 <= q < 16 ensures Inside([Range(2, 16)], q) {}
  }
}
