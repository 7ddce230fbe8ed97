/** Locating the destination inside the raw text of a link, image or definition. */
module LinkDestination {
  import opened Text
  import opened Wrappers

  // ----- text with escapes and balanced brackets (section 6.3 of CommonMark 0.31)

  /** A character, an escaped character, or bracketed text. */
  datatype Piece = Plain(c: char) | Escaped(c: char) | Nested(pieces: seq<Piece>)

  /** Which brackets nest, which character closes, and whether a space outside any
      bracket closes too. */
  datatype Mode = Mode(open: Option<char>, close: char, stopAtSpace: bool)

  const LABEL := Mode(Some('['), ']', false)
  const DESTINATION := Mode(Some('('), ')', true)
  const ANGLE := Mode(None, '>', false)

  ghost predicate ValidMode(m: Mode) {
    m.close != '\\' && m.open != Some('\\') && m.open != Some(m.close) && !IsSpace(m.close)
      && (m.open.Some? ==> !IsSpace(m.open.value))
  }

  lemma ModesAreValid()
    ensures ValidMode(LABEL) && ValidMode(DESTINATION) && ValidMode(ANGLE)
  {
  }

  predicate Stops(m: Mode, c: char) {
    c == m.close || (m.stopAtSpace && IsSpace(c))
  }

  ghost predicate Balanced(m: Mode, pieces: seq<Piece>, top: bool)
    decreases pieces
  {
    forall p | p in pieces ::
      match p
      case Plain(c) => c != '\\' && Some(c) != m.open && c != m.close && (top ==> !Stops(m, c))
      case Escaped(_) => true
      case Nested(inner) => m.open.Some? && Balanced(m, inner, false)
  }

  function Render(m: Mode, pieces: seq<Piece>): string
    decreases pieces
  {
    if pieces == [] then ""
    else RenderPiece(m, pieces[0]) + Render(m, pieces[1..])
  }

  function RenderPiece(m: Mode, p: Piece): string
    decreases p
  {
    match p
    case Plain(c) => [c]
    case Escaped(c) => ['\\', c]
    case Nested(inner) => (if m.open.Some? then [m.open.value] else []) + Render(m, inner) + [m.close]
  }

  // ----- the scan

  /** Where the scan from `at` stops, `depth` brackets being open: at the first stop
      outside them, escaped characters being skipped; nowhere when the text ends first. */
  function Scan(m: Mode, s: string, at: nat, depth: nat): (stop: Option<nat>)
    ensures stop.Some? ==> at <= stop.value < |s| && Stops(m, s[stop.value])
    decreases if at < |s| then |s| - at else 0
  {
    if at >= |s| then None
    else if s[at] == '\\' then Scan(m, s, at + 2, depth)
    else if Some(s[at]) == m.open then Scan(m, s, at + 1, depth + 1)
    else if s[at] == m.close then if depth == 0 then Some(at) else Scan(m, s, at + 1, depth - 1)
    else if m.stopAtSpace && IsSpace(s[at]) && depth == 0 then Some(at)
    else Scan(m, s, at + 1, depth)
  }

  /** `t` is written in `s` at this position. */
  ghost predicate Holds(s: string, at: nat, t: string) {
    at + |t| <= |s| && s[at..at + |t|] == t
  }

  lemma HoldsParts(s: string, at: nat, a: string, b: string)
    requires Holds(s, at, a + b)
    ensures Holds(s, at, a) && Holds(s, at + |a|, b)
    ensures a != "" ==> s[at] == a[0]
  {
    var t := a + b;
    assert s[at..at + |t|][..|a|] == a && s[at..at + |t|][|a|..] == b;
    assert a != "" ==> s[at..at + |t|][0] == s[at];
  }

  lemma BalancedParts(m: Mode, pieces: seq<Piece>, top: bool)
    requires Balanced(m, pieces, top) && pieces != []
    ensures Balanced(m, [pieces[0]], top) && Balanced(m, pieces[1..], top)
    ensures pieces[0].Nested? ==> m.open.Some? && Balanced(m, pieces[0].pieces, false)
  {
    assert pieces[0] in pieces && forall p :: p in pieces[1..] ==> p in pieces;
  }

  lemma NestedHolds(m: Mode, s: string, at: nat, inner: seq<Piece>)
    requires m.open.Some? && Holds(s, at, RenderPiece(m, Nested(inner)))
    ensures var end := at + 1 + |Render(m, inner)|;
            end < |s| && s[at] == m.open.value && Holds(s, at + 1, Render(m, inner)) && s[end] == m.close
  {
    hide Render;
    var open, text, close := [m.open.value], Render(m, inner), [m.close];
    HoldsParts(s, at, open + text, close);
    HoldsParts(s, at, open, text);
  }

  /** A stop outside all brackets ends the scan. */
  lemma ScanStops(m: Mode, s: string, at: nat)
    requires ValidMode(m) && (at < |s| ==> Stops(m, s[at]))
    ensures Scan(m, s, at, 0) == if at < |s| then Some(at) else None
  {
  }

  /** One piece is passed over, given that text inside brackets is. */
  lemma ScanPassesPiece(m: Mode, s: string, at: nat, p: Piece, depth: nat)
    requires ValidMode(m) && Balanced(m, [p], depth == 0) && Holds(s, at, RenderPiece(m, p))
    requires p.Nested? ==> Scan(m, s, at + 1, depth + 1) == Scan(m, s, at + 1 + |Render(m, p.pieces)|, depth + 1)
    ensures Scan(m, s, at, depth) == Scan(m, s, at + |RenderPiece(m, p)|, depth)
  {
    hide IsSpace, Render;
    assert p in [p];
    match p
    case Plain(c) => HoldsParts(s, at, [c], "");
    case Escaped(c) => HoldsParts(s, at, ['\\'], [c]);
    case Nested(inner) => NestedHolds(m, s, at, inner);
  }

  /** Balanced text is passed over whole, at any depth. */
  lemma {:induction false} ScanPasses(m: Mode, s: string, at: nat, pieces: seq<Piece>, depth: nat)
    requires ValidMode(m) && Balanced(m, pieces, depth == 0) && Holds(s, at, Render(m, pieces))
    ensures Scan(m, s, at, depth) == Scan(m, s, at + |Render(m, pieces)|, depth)
    decreases pieces
  {
    hide Scan, Stops, ValidMode, Holds, Balanced, RenderPiece;
    if pieces != [] {
      var p, rest := pieces[0], pieces[1..];
      BalancedParts(m, pieces, depth == 0);
      HoldsParts(s, at, RenderPiece(m, p), Render(m, rest));
      if p.Nested? {
        NestedHolds(m, s, at, p.pieces);
        BalancedInside(m, p.pieces, depth + 1);
        ScanPasses(m, s, at + 1, p.pieces, depth + 1);
      }
      ScanPassesPiece(m, s, at, p, depth);
      ScanPasses(m, s, at + |RenderPiece(m, p)|, rest, depth);
    }
  }

  lemma BalancedInside(m: Mode, pieces: seq<Piece>, depth: nat)
    requires Balanced(m, pieces, false) && depth > 0
    ensures Balanced(m, pieces, depth == 0)
  {
  }

  /** The text before a stop, `depth` brackets having been open: balanced runs, each
      but the last ended by a closing bracket. */
  ghost predicate Runs(m: Mode, s: string, runs: seq<seq<Piece>>) {
    && runs != []
    && s == RenderRuns(m, runs)
    && forall k :: 0 <= k < |runs| ==> Balanced(m, runs[k], k == |runs| - 1)
  }

  function RenderRuns(m: Mode, runs: seq<seq<Piece>>): string
    requires runs != []
  {
    if |runs| == 1 then Render(m, runs[0]) else Render(m, runs[0]) + [m.close] + RenderRuns(m, runs[1..])
  }

  /** Putting one more piece in front of the first run. */
  lemma RunsGrow(m: Mode, p: Piece, s: string, runs: seq<seq<Piece>>)
    requires Runs(m, s, runs) && Balanced(m, [p], |runs| == 1)
    ensures Runs(m, RenderPiece(m, p) + s, [[p] + runs[0]] + runs[1..])
  {
    var longer := [[p] + runs[0]] + runs[1..];
    assert ([p] + runs[0])[1..] == runs[0];
    assert longer[1..] == runs[1..];
    assert p in [p];
    assert RenderRuns(m, longer) == RenderPiece(m, p) + RenderRuns(m, runs);
  }

  /** A bracket opened in front takes the first run inside. */
  lemma RunsNest(m: Mode, s: string, deeper: seq<seq<Piece>>)
    requires Runs(m, s, deeper) && |deeper| > 1 && m.open.Some?
    ensures Runs(m, [m.open.value] + s, [[Nested(deeper[0])] + deeper[1]] + deeper[2..])
  {
    var nested, outer := Nested(deeper[0]), deeper[1..];
    assert nested in [nested];
    forall k | 0 <= k < |outer| ensures Balanced(m, outer[k], k == |outer| - 1) {
      assert outer[k] == deeper[k + 1];
    }
    RunsGrow(m, nested, RenderRuns(m, outer), outer);
    assert [m.open.value] + s == RenderPiece(m, nested) + RenderRuns(m, outer);
    assert outer[1..] == deeper[2..];
  }

  lemma RunsClose(m: Mode, s: string, outer: seq<seq<Piece>>)
    requires Runs(m, s, outer)
    ensures Runs(m, [m.close] + s, [[]] + outer)
  {
    var runs := [[]] + outer;
    assert runs[1..] == outer;
    assert RenderRuns(m, runs) == "" + [m.close] + RenderRuns(m, outer);
  }

  lemma NoRuns(m: Mode)
    ensures Runs(m, "", [[]])
  {
  }

  /** Whatever the scan passed over was balanced. */
  lemma {:induction false} ScannedIsBalanced(m: Mode, s: string, at: nat, depth: nat) returns (runs: seq<seq<Piece>>)
    requires ValidMode(m) && Scan(m, s, at, depth).Some?
    ensures |runs| == depth + 1 && Runs(m, s[at..Scan(m, s, at, depth).value], runs)
    decreases |s| - at
  {
    hide IsSpace, Runs, Balanced;
    var k := Scan(m, s, at, depth).value;
    if s[at] == '\\' {
      runs := ScannedIsBalanced(m, s, at + 2, depth);
      assert s[at..k] == ['\\', s[at + 1]] + s[at + 2..k];
      EscapeGrows(m, s[at + 1], s[at + 2..k], runs);
      runs := [[Escaped(s[at + 1])] + runs[0]] + runs[1..];
    } else if Some(s[at]) == m.open {
      var deeper := ScannedIsBalanced(m, s, at + 1, depth + 1);
      assert s[at..k] == [s[at]] + s[at + 1..k];
      RunsNest(m, s[at + 1..k], deeper);
      runs := [[Nested(deeper[0])] + deeper[1]] + deeper[2..];
    } else if s[at] == m.close && depth > 0 {
      runs := ScannedIsBalanced(m, s, at + 1, depth - 1);
      assert s[at..k] == [s[at]] + s[at + 1..k];
      RunsClose(m, s[at + 1..k], runs);
      runs := [[]] + runs;
    } else if k == at {
      runs := [[]];
      NoRuns(m);
    } else {
      runs := ScannedIsBalanced(m, s, at + 1, depth);
      assert s[at..k] == [s[at]] + s[at + 1..k];
      PlainGrows(m, s[at], s[at + 1..k], runs);
      runs := [[Plain(s[at])] + runs[0]] + runs[1..];
    }
  }

  lemma EscapeGrows(m: Mode, c: char, s: string, runs: seq<seq<Piece>>)
    requires Runs(m, s, runs)
    ensures Runs(m, ['\\', c] + s, [[Escaped(c)] + runs[0]] + runs[1..])
  {
    assert forall p :: p in [Escaped(c)] ==> p == Escaped(c);
    RunsGrow(m, Escaped(c), s, runs);
  }

  lemma PlainGrows(m: Mode, c: char, s: string, runs: seq<seq<Piece>>)
    requires Runs(m, s, runs) && c != '\\' && Some(c) != m.open && c != m.close && (|runs| == 1 ==> !Stops(m, c))
    ensures Runs(m, [c] + s, [[Plain(c)] + runs[0]] + runs[1..])
  {
    assert forall p :: p in [Plain(c)] ==> p == Plain(c);
    RunsGrow(m, Plain(c), s, runs);
  }

  /** The scan stops at `k` exactly when balanced text ends there at a stop. */
  lemma ScanExact(m: Mode, s: string, at: nat, k: nat)
    requires ValidMode(m)
    ensures Scan(m, s, at, 0) == Some(k) <==>
              at <= k < |s| && Stops(m, s[k])
                && exists pieces :: Balanced(m, pieces, true) && Render(m, pieces) == s[at..k]
  {
    hide Balanced, Render, IsSpace;
    if Scan(m, s, at, 0) == Some(k) {
      var runs := ScannedIsBalanced(m, s, at, 0);
      assert Balanced(m, runs[0], true) && Render(m, runs[0]) == s[at..k];
    }
    if at <= k < |s| && Stops(m, s[k]) {
      forall pieces | Balanced(m, pieces, true) && Render(m, pieces) == s[at..k] ensures Scan(m, s, at, 0) == Some(k) {
        ScanPasses(m, s, at, pieces, 0);
        ScanStops(m, s, k);
      }
    }
  }

  // ----- the destination of a node

  datatype Kind = Link | Image | Definition
  datatype Located = Range(start: nat, end: nat) | NoLabelEnd | NoSeparator | NoInlineDestination | NoAngleEnd

  /** The first position of `c` from `from` on. */
  function IndexOf(s: string, c: char, from: nat): (at: Option<nat>)
    requires from <= |s|
    ensures at.Some? ==> from <= at.value < |s| && s[at.value] == c
    decreases |s| - from
  {
    if from == |s| then None else if s[from] == c then Some(from) else IndexOf(s, c, from + 1)
  }

  lemma IndexFound(s: string, c: char, from: nat, at: nat)
    requires from <= at < |s| && s[at] == c && forall k :: from <= k < at ==> s[k] != c
    ensures IndexOf(s, c, from) == Some(at)
    decreases at - from
  {
    if from < at { IndexFound(s, c, from + 1, at); }
  }

  function LabelEndOf(raw: string): (at: Option<nat>)
    ensures at.Some? ==> at.value < |raw|
  {
    var first := IndexOf(raw, '[', 0);
    if first.None? then None else Scan(LABEL, raw, first.value + 1, 0)
  }

  function DestinationFrom(raw: string, start: nat): Located
    requires start <= |raw|
  {
    if start < |raw| && raw[start] == '<' then
      var stop := Scan(ANGLE, raw, start + 1, 0);
      if stop.None? then NoAngleEnd else Range(start + 1, stop.value)
    else
      var stop := Scan(DESTINATION, raw, start, 0);
      Range(start, if stop.None? then |raw| else stop.value)
  }

  function DestinationOf(raw: string, kind: Kind): Located {
    var end := LabelEndOf(raw);
    if end.None? then NoLabelEnd
    else if kind.Definition? then
      var colon := IndexOf(raw, ':', end.value + 1);
      if colon.None? then NoSeparator else DestinationFrom(raw, AfterSpaces(raw, colon.value + 1))
    else if end.value + 1 >= |raw| || raw[end.value + 1] != '(' then NoInlineDestination
    else DestinationFrom(raw, AfterSpaces(raw, end.value + 2))
  }

  // ----- the loops

  method SkipWhitespace(source: string, start: nat) returns (index: nat)
    requires start <= |source|
    ensures index == AfterSpaces(source, start)
  {
    index := start;
    while index < |source| && IsSpace(source[index])
      invariant start <= index <= |source| && AfterSpaces(source, start) == AfterSpaces(source, index)
    {
      index := index + 1;
    }
  }

  method LabelEnd(source: string) returns (end: Option<nat>)
    ensures end == LabelEndOf(source)
  {
    var first := IndexOf(source, '[', 0);
    if first.None? { return None; }
    var depth := 0;
    var index := first.value;
    while index < |source|
      invariant if index == first.value then depth == 0 else first.value < index && depth > 0
      invariant index > first.value ==> LabelEndOf(source) == Scan(LABEL, source, index, depth - 1)
    {
      var c := source[index];
      if c == '\\' {
        index := index + 1;
      } else if c == '[' {
        depth := depth + 1;
      } else if c == ']' {
        depth := depth - 1;
        if depth == 0 { return Some(index); }
      }
      index := index + 1;
    }
    return None;
  }

  method AngleEnd(raw: string, start: nat) returns (located: Located)
    requires start < |raw| && raw[start] == '<'
    ensures located == DestinationFrom(raw, start)
  {
    var index := start + 1;
    while index < |raw|
      invariant Scan(ANGLE, raw, start + 1, 0) == Scan(ANGLE, raw, index, 0)
    {
      if raw[index] == '\\' {
        index := index + 1;
      } else if raw[index] == '>' {
        return Range(start + 1, index);
      }
      index := index + 1;
    }
    return NoAngleEnd;
  }

  method BareEnd(raw: string, start: nat) returns (located: Located)
    requires start <= |raw| && (start < |raw| ==> raw[start] != '<')
    ensures located == DestinationFrom(raw, start)
  {
    hide IsSpace;
    var depth := 0;
    var index := start;
    while index < |raw|
      invariant 0 <= depth && Scan(DESTINATION, raw, start, 0) == Scan(DESTINATION, raw, index, depth)
    {
      var c := raw[index];
      if c == '\\' {
        index := index + 1;
      } else if c == '(' {
        depth := depth + 1;
      } else if c == ')' {
        if depth == 0 { return Range(start, index); }
        depth := depth - 1;
      } else if IsSpace(c) && depth == 0 {
        return Range(start, index);
      }
      index := index + 1;
    }
    return Range(start, |raw|);
  }

  method DestinationRange(raw: string, kind: Kind) returns (located: Located)
    ensures located == DestinationOf(raw, kind)
  {
    var endOfLabel := LabelEnd(raw);
    if endOfLabel.None? { return NoLabelEnd; }
    var start: nat;
    if kind.Definition? {
      var colon := IndexOf(raw, ':', endOfLabel.value + 1);
      if colon.None? { return NoSeparator; }
      start := SkipWhitespace(raw, colon.value + 1);
    } else {
      if endOfLabel.value + 1 >= |raw| || raw[endOfLabel.value + 1] != '(' { return NoInlineDestination; }
      start := SkipWhitespace(raw, endOfLabel.value + 2);
    }
    if start < |raw| && raw[start] == '<' {
      located := AngleEnd(raw, start);
    } else {
      located := BareEnd(raw, start);
    }
  }

  // ----- it is the destination

  /** How a destination is written: bare, or between angle brackets. */
  datatype Destination = Bare(pieces: seq<Piece>) | Angle(pieces: seq<Piece>)

  function Written(d: Destination): string {
    match d
    case Bare(pieces) => Render(DESTINATION, pieces)
    case Angle(pieces) => "<" + Render(ANGLE, pieces) + ">"
  }

  /** The part of it that is replaced. */
  function Shown(d: Destination): string {
    match d
    case Bare(pieces) => Render(DESTINATION, pieces)
    case Angle(pieces) => Render(ANGLE, pieces)
  }

  /** Well formed, and told apart from what surrounds it: a bare destination does not
      begin like an angle one and is not empty before more text of the same kind. */
  ghost predicate WellWritten(d: Destination, tail: string) {
    match d
    case Angle(pieces) => Balanced(ANGLE, pieces, true)
    case Bare(pieces) =>
      && Balanced(DESTINATION, pieces, true)
      && (tail == "" || tail[0] == ')' || (IsSpace(tail[0]) && pieces != []))
      && (pieces != [] ==> pieces[0] != Plain('<'))
  }

  lemma SpacesAreSkipped(s: string, before: string, spaces: string, rest: string)
    requires s == before + spaces + rest && AllSpaces(spaces) && (rest == "" || !IsSpace(rest[0]))
    ensures AfterSpaces(s, |before|) == |before| + |spaces|
  {
    assert forall k :: |before| <= k < |before| + |spaces| ==> s[k] == spaces[k - |before|];
    assert rest != "" ==> s[|before| + |spaces|] == rest[0];
  }

  /** From the start of the destination on, exactly its text is found. */
  lemma DestinationFound(raw: string, before: string, d: Destination, tail: string)
    requires WellWritten(d, tail) && raw == before + Written(d) + tail
    ensures DestinationFrom(raw, |before|) == (match d case Bare(_) => Range(|before|, |before| + |Shown(d)|)
                                                      case Angle(_) => Range(|before| + 1, |before| + 1 + |Shown(d)|))
  {
    match d
    case Angle(pieces) => AngleFound(raw, before, pieces, tail);
    case Bare(pieces) => BareFound(raw, before, pieces, tail);
  }

  lemma AngleFound(raw: string, before: string, pieces: seq<Piece>, tail: string)
    requires Balanced(ANGLE, pieces, true) && raw == before + ("<" + Render(ANGLE, pieces) + ">") + tail
    ensures DestinationFrom(raw, |before|) == Range(|before| + 1, |before| + 1 + |Render(ANGLE, pieces)|)
  {
    hide IsSpace, Balanced, Render;
    ModesAreValid();
    ScanPasses(ANGLE, raw, |before| + 1, pieces, 0);
  }

  lemma BareFound(raw: string, before: string, pieces: seq<Piece>, tail: string)
    requires WellWritten(Bare(pieces), tail) && raw == before + Render(DESTINATION, pieces) + tail
    ensures DestinationFrom(raw, |before|) == Range(|before|, |before| + |Render(DESTINATION, pieces)|)
  {
    hide IsSpace, Balanced, Render;
    BareStart(pieces, tail);
    assert |before| < |raw| ==> raw[|before|] == (Render(DESTINATION, pieces) + tail)[0];
    ModesAreValid();
    ScanPasses(DESTINATION, raw, |before|, pieces, 0);
    ScanStops(DESTINATION, raw, |before| + |Render(DESTINATION, pieces)|);
  }

  /** A bare destination begins with neither a space nor `<`. */
  lemma BareStart(pieces: seq<Piece>, tail: string)
    requires WellWritten(Bare(pieces), tail)
    ensures var s := Render(DESTINATION, pieces) + tail; s != "" ==> s[0] != '<' && !IsSpace(s[0])
  {
    if pieces != [] {
      assert pieces[0] in pieces;
    }
  }

  lemma LabelFound(raw: string, before: string, text: seq<Piece>, rest: string)
    requires '[' !in before && Balanced(LABEL, text, true) && raw == before + "[" + Render(LABEL, text) + "]" + rest
    ensures LabelEndOf(raw) == Some(|before| + 1 + |Render(LABEL, text)|)
  {
    assert raw[|before|] == '[' && forall k :: 0 <= k < |before| ==> raw[k] == before[k];
    IndexFound(raw, '[', 0, |before|);
    ModesAreValid();
    ScanPasses(LABEL, raw, |before| + 1, text, 0);
  }

  /** The range covers the text of the destination, right after what precedes it. */
  ghost predicate Covers(raw: string, located: Located, before: string, d: Destination) {
    && located.Range? && located.start <= located.end <= |raw|
    && raw[..located.start] == before + (if d.Angle? then "<" else "")
    && raw[located.start..located.end] == Shown(d)
  }

  lemma DestinationCovered(raw: string, before: string, spaces: string, d: Destination, tail: string)
    requires AllSpaces(spaces) && WellWritten(d, tail) && raw == before + spaces + Written(d) + tail
    ensures Covers(raw, DestinationFrom(raw, AfterSpaces(raw, |before|)), before + spaces, d)
  {
    hide DestinationFrom, AfterSpaces, WellWritten, AllSpaces, Written, Shown, Covers;
    SpacesEndAtDestination(raw, before, spaces, d, tail);
    DestinationFound(raw, before + spaces, d, tail);
    RangeCovers(raw, before + spaces, d, tail);
  }

  lemma RangeCovers(raw: string, before: string, d: Destination, tail: string)
    requires raw == before + Written(d) + tail
    ensures var start := |before| + if d.Angle? then 1 else 0;
            Covers(raw, Range(start, start + |Shown(d)|), before, d)
  {
    hide Render;
    if d.Angle? {
      var shown := Render(ANGLE, d.pieces);
      MiddleIs(raw, before + "<", shown, ">" + tail);
    } else {
      MiddleIs(raw, before, Render(DESTINATION, d.pieces), tail);
    }
  }

  lemma MiddleIs(raw: string, before: string, middle: string, tail: string)
    requires raw == before + middle + tail
    ensures raw[..|before|] == before && raw[|before|..|before| + |middle|] == middle
  {
  }

  /** In an inline link or image the range found is exactly the destination. */
  lemma InlineDestinationFound(before: string, text: seq<Piece>, spaces: string, d: Destination, tail: string,
        kind: Kind)
    requires '[' !in before && Balanced(LABEL, text, true) && AllSpaces(spaces) && WellWritten(d, tail)
        && !kind.Definition?
    ensures var open := before + "[" + Render(LABEL, text) + "](";
            var raw := open + spaces + Written(d) + tail;
            Covers(raw, DestinationOf(raw, kind), open + spaces, d)
  {
    hide DestinationFrom, AfterSpaces, WellWritten, AllSpaces, Covers, LabelEndOf, Balanced, Render, Written;
    var shown := Render(LABEL, text);
    var open := before + "[" + shown + "](";
    var raw := open + spaces + Written(d) + tail;
    assert raw == before + "[" + shown + "]" + ("(" + spaces + Written(d) + tail);
    LabelFound(raw, before, text, "(" + spaces + Written(d) + tail);
    assert |open| == |before| + |shown| + 3 && raw[|open| - 1] == open[|open| - 1] == '(';
    DestinationCovered(raw, open, spaces, d, tail);
  }

  lemma SpacesEndAtDestination(raw: string, before: string, spaces: string, d: Destination, tail: string)
    requires raw == before + spaces + Written(d) + tail && AllSpaces(spaces) && WellWritten(d, tail)
    ensures AfterSpaces(raw, |before|) == |before| + |spaces|
  {
    assert raw == before + spaces + (Written(d) + tail);
    if d.Bare? { BareStart(d.pieces, tail); } else { assert (Written(d) + tail)[0] == '<'; }
    SpacesAreSkipped(raw, before, spaces, Written(d) + tail);
  }

  /** And so it is in a definition, after the colon that follows the label. */
  lemma DefinitionDestinationFound(before: string, text: seq<Piece>, between: string, spaces: string, d: Destination,
        tail: string)
    requires '[' !in before && Balanced(LABEL, text, true) && ':' !in between && AllSpaces(spaces)
    requires WellWritten(d, tail)
    ensures var open := before + "[" + Render(LABEL, text) + "]" + between + ":";
            var raw := open + spaces + Written(d) + tail;
            Covers(raw, DestinationOf(raw, Definition), open + spaces, d)
  {
    hide DestinationFrom, AfterSpaces, WellWritten, AllSpaces, Covers, LabelEndOf, Balanced, Render, Written, IndexOf;
    var shown := Render(LABEL, text);
    var upToLabel := before + "[" + shown + "]";
    var open := upToLabel + between + ":";
    var raw := open + spaces + Written(d) + tail;
    assert raw == before + "[" + shown + "]" + (between + ":" + spaces + Written(d) + tail);
    LabelFound(raw, before, text, between + ":" + spaces + Written(d) + tail);
    assert raw == upToLabel + between + ":" + (spaces + Written(d) + tail);
    ColonFound(raw, upToLabel, between, spaces + Written(d) + tail);
    DestinationCovered(raw, open, spaces, d, tail);
  }

  lemma ColonFound(raw: string, before: string, between: string, rest: string)
    requires ':' !in between && raw == before + between + ":" + rest
    ensures IndexOf(raw, ':', |before|) == Some(|before| + |between|)
  {
    assert raw[|before| + |between|] == ':';
    assert forall k :: |before| <= k < |before| + |between| ==> raw[k] == between[k - |before|];
    IndexFound(raw, ':', |before|, |before| + |between|);
  }

  /** Conversely, whatever range is found is a balanced destination, cut short only
      by the end of the text. */
  lemma FoundIsDestination(raw: string, start: nat)
    requires start <= |raw| && DestinationFrom(raw, start).Range?
    ensures var located := DestinationFrom(raw, start);
            && start <= located.start <= located.end <= |raw|
            && (located.end < |raw| ==>
                 if located.start == start then
                   && Stops(DESTINATION, raw[located.end])
                   && exists p :: Balanced(DESTINATION, p, true) && Render(DESTINATION, p) == raw[start..located.end]
                 else
                   && raw[start] == '<' && raw[located.end] == '>'
                   && exists p :: Balanced(ANGLE, p, true) && Render(ANGLE, p) == raw[start + 1..located.end])
  {
    hide Balanced, Render, IsSpace;
    ModesAreValid();
    var located := DestinationFrom(raw, start);
    if start < |raw| && raw[start] == '<' {
      ScanExact(ANGLE, raw, start + 1, located.end);
    } else if located.end < |raw| {
      ScanExact(DESTINATION, raw, start, located.end);
    }
  }
}
