/** The rename of the vendored packages over whole files: which lines follow it, which
    patterns a file skips, the loops over lines and patterns, and the laws of files. A
    second run finds nothing to do, and the reverse run restores the file, under conditions
    on its lines that are exact. */
module Rescope {
  import opened Sorting
  import opened Text
  import opened TokenRename
  import opened RenameRoundTrip

  // ----- one line

  lemma RewriteOneParts(head: string, pieces: seq<Piece>, p: Pattern)
    requires NoQuote(head) && WellCut(pieces) && IsName(p.from) && IsName(p.to)
    ensures var head', pieces' := ReplaceHead(head, pieces != [], p.from, p.to), Pass(pieces, p.from, p.to, false);
            RewriteOne(head + Uncut(pieces), p) == head' + Uncut(pieces') && NoQuote(head') && WellCut(pieces')
  {
    hide ReplaceTokens, ReplaceYamlName, HeadHas, Pass, WellCut;
    var pieces' := Pass(pieces, p.from, p.to, false);
    ReplaceSkips(head, Uncut(pieces), p.from, p.to);
    ReplaceIsPass(pieces, p.from, p.to);
    PassKeepsWellCut(pieces, p.from, p.to);
    assert pieces' != [] <==> pieces != [] by { assert |pieces'| == |pieces|; }
    HeadContinues(head, pieces');
    ReplaceInHead(head, Uncut(pieces'), p.from, p.to);
    if HeadHas(head, pieces != [], p.from) { HeadReplaced(head, pieces != [], p.from, p.to); }
  }

  lemma HeadContinues(head: string, pieces: seq<Piece>)
    requires NoQuote(head) && WellCut(pieces)
    ensures Continues(head + Uncut(pieces), head) && (Uncut(pieces) != "" <==> pieces != [])
  {
    if pieces != [] { WellCutRest(pieces); }
  }

  /** Rewriting a line is rewriting its parts. */
  lemma {:induction false} RewriteAllParts(head: string, pieces: seq<Piece>, all: seq<Pattern>)
    requires NoQuote(head) && WellCut(pieces) && Separate(all)
    ensures RewriteAll(head + Uncut(pieces), all) == HeadAll(head, pieces != [], all) + Uncut(PassAll(pieces, all))
    ensures NoQuote(HeadAll(head, pieces != [], all)) && WellCut(PassAll(pieces, all))
    decreases |all|
  {
    if all != [] {
      hide NoQuote, WellCut, ReplaceHead, Pass, Uncut;
      var p := all[0];
      assert IsName(p.from) && IsName(p.to);
      SeparateRest(all);
      RewriteOneParts(head, pieces, p);
      var pieces' := Pass(pieces, p.from, p.to, false);
      assert pieces' != [] <==> pieces != [] by { assert |pieces'| == |pieces|; }
      RewriteAllParts(ReplaceHead(head, pieces != [], p.from, p.to), pieces', all[1..]);
    }
  }

  /** Parts determine the line and the line its parts. */
  lemma SameLine(head: string, pieces: seq<Piece>, head': string, pieces': seq<Piece>)
    requires NoQuote(head) && WellCut(pieces) && NoQuote(head') && WellCut(pieces')
    ensures head + Uncut(pieces) == head' + Uncut(pieces') <==> head == head' && pieces == pieces'
  {
    CutUnique(head, pieces);
    CutUnique(head', pieces');
  }

  lemma HeadAgain(head: string, more: bool, all: seq<Pattern>)
    requires Separate(all)
    ensures HeadAll(HeadAll(head, more, all), more, all) == HeadAll(head, more, all)
  {
    hide HeadHas, Separate;
    HeadAllIs(head, more, all);
    var now := HeadAll(head, more, all);
    HeadAllIs(now, more, all);
    if k: nat :| HeadRenames(head, more, all, k) {
      forall l: nat ensures !HeadRenames(now, more, all, l) {
        if l < |all| { RenamedHeadIsNew(head, more, all, k, l); }
      }
    }
  }

  lemma RenamedHeadIsNew(head: string, more: bool, all: seq<Pattern>, k: nat, l: nat)
    requires Separate(all) && HeadRenames(head, more, all, k) && l < |all|
    ensures !HeadHas(ReplaceHead(head, more, all[k].from, all[k].to), more, all[l].from)
    ensures !HeadHas(head, more, all[l].to)
  {
    hide HeadHas;
    var now := ReplaceHead(head, more, all[k].from, all[k].to);
    HeadReplaced(head, more, all[k].from, all[k].to);
    FromToApart(all, l, k);
    FromToApart(all, k, l);
    if HeadHas(now, more, all[l].from) { HeadHasOne(now, more, all[k].to, all[l].from); }
    if HeadHas(head, more, all[l].to) { HeadHasOne(head, more, all[k].from, all[l].to); }
  }

  /** The reverse rename restores the name entry exactly when no new name was there. */
  lemma HeadBack(head: string, more: bool, all: seq<Pattern>, back: seq<Pattern>)
    requires Separate(all) && Separate(back) && Undoes(all, back)
    ensures HeadAll(HeadAll(head, more, all), more, back) == head <==>
        forall k :: 0 <= k < |all| ==> !HeadHas(head, more, all[k].to)
  {
    hide HeadHas, Separate, ReplaceHead, AllOpposed;
    var now := HeadAll(head, more, all);
    HeadAllIs(head, more, all);
    HeadAllIs(now, more, back);
    if k: nat :| HeadRenames(head, more, all, k) {
      var l := OppositeOf(all, back, k);
      HeadReplacedBy(head, more, all, k);
      assert HeadRenames(now, more, back, l);
      HeadRestoredBy(head, more, all, k);
      forall m: nat | m < |all| ensures !HeadHas(head, more, all[m].to) { RenamedHeadIsNew(head, more, all, k, m); }
    } else if l: nat :| HeadRenames(head, more, back, l) {
      var k := OppositeOf(back, all, l);
      assert HeadHas(head, more, all[k].to);
      HeadChanges(head, more, back, l);
    } else {
      forall k | 0 <= k < |all| ensures !HeadHas(head, more, all[k].to) {
        var l := OppositeOf(all, back, k);
        assert !HeadRenames(head, more, back, l);
      }
    }
  }

  lemma HeadReplacedBy(head: string, more: bool, all: seq<Pattern>, k: nat)
    requires Separate(all) && HeadRenames(head, more, all, k)
    ensures HeadHas(ReplaceHead(head, more, all[k].from, all[k].to), more, all[k].to)
  {
    HeadReplaced(head, more, all[k].from, all[k].to);
  }

  lemma HeadRestoredBy(head: string, more: bool, all: seq<Pattern>, k: nat)
    requires Separate(all) && HeadRenames(head, more, all, k)
    ensures ReplaceHead(ReplaceHead(head, more, all[k].from, all[k].to), more, all[k].to, all[k].from) == head
  {
    HeadRestored(head, more, all[k].from, all[k].to);
  }

  lemma HeadChanges(head: string, more: bool, all: seq<Pattern>, k: nat)
    requires Separate(all) && HeadRenames(head, more, all, k)
    ensures ReplaceHead(head, more, all[k].from, all[k].to) != head
  {
    RenamedHeadIsNew(head, more, all, k, k);
  }

  /** Some quote of the line both closes one token and opens the next of the same package. */
  ghost predicate HasSharedQuote(line: string, all: seq<Pattern>) {
    exists i: nat, k: nat :: SharesQuote(Cut(line).pieces, all, i, k)
  }

  /** Renaming a line again changes nothing exactly when no quote both closes one token
      and opens the next of the same package. */
  lemma LineIdempotent(line: string, all: seq<Pattern>)
    requires Separate(all)
    ensures RewriteAll(RewriteAll(line, all), all) == RewriteAll(line, all) <==> !HasSharedQuote(line, all)
  {
    hide NoQuote, WellCut, Separate, SharesQuote, HeadAll, PassAll, RewriteAll, Uncut, Cut;
    var head, pieces := Cut(line).head, Cut(line).pieces;
    CutWhole(line);
    RewriteAllParts(head, pieces, all);
    var head', pieces' := HeadAll(head, pieces != [], all), PassAll(pieces, all);
    assert pieces' != [] <==> pieces != [] by { assert |pieces'| == |pieces|; }
    RewriteAllParts(head', pieces', all);
    SameLine(HeadAll(head', pieces != [], all), PassAll(pieces', all), head', pieces');
    HeadAgain(head, pieces != [], all);
    if i: nat, k: nat :| SharesQuote(pieces, all, i, k) {
      TokensChangeAgainWhenShared(pieces, all, i, k);
    } else {
      TokensIdempotentWhenApart(pieces, all);
    }
  }

  /** No name entry has a new name, and a token of a new name stands only where its
      opening quote closes a token of the same package that is renamed. */
  ghost predicate Restorable(line: string, all: seq<Pattern>) {
    && (forall k :: 0 <= k < |all| ==> !HasYamlName(line, all[k].to))
    && (forall i: nat, k: nat :: Shielded(Cut(line).pieces, all, i, k))
  }

  /** Renaming and renaming back restores the line exactly when it is restorable. */
  lemma LineRestored(line: string, all: seq<Pattern>, back: seq<Pattern>)
    requires Separate(all) && Separate(back) && Undoes(all, back)
    ensures RewriteAll(RewriteAll(line, all), back) == line <==> Restorable(line, all)
  {
    hide NoQuote, WellCut, Separate, Shielded, HeadAll, PassAll, RewriteAll, Uncut, Cut, Undoes, HasYamlName, HeadHas;
    var head, pieces := Cut(line).head, Cut(line).pieces;
    CutWhole(line);
    RewriteAllParts(head, pieces, all);
    var head', pieces' := HeadAll(head, pieces != [], all), PassAll(pieces, all);
    assert pieces' != [] <==> pieces != [] by { assert |pieces'| == |pieces|; }
    RewriteAllParts(head', pieces', back);
    SameLine(HeadAll(head', pieces != [], back), PassAll(pieces', back), head, pieces);
    HeadBack(head, pieces != [], all, back);
    YamlOfLine(head, pieces, all);
    if forall i: nat, k: nat :: Shielded(pieces, all, i, k) { RestoredWhenShielded(pieces, all, back); }
    if PassAll(pieces', back) == pieces {
      forall i: nat, k: nat ensures Shielded(pieces, all, i, k) { ShieldedWhenRestored(pieces, all, back, i, k); }
    }
  }

  lemma YamlOfLine(head: string, pieces: seq<Piece>, all: seq<Pattern>)
    requires NoQuote(head) && WellCut(pieces) && Separate(all)
    ensures forall k :: 0 <= k < |all| ==>
        HasYamlName(head + Uncut(pieces), all[k].to) == HeadHas(head, pieces != [], all[k].to)
  {
    hide HasYamlName, HeadHas, Uncut;
    HeadContinues(head, pieces);
    forall k | 0 <= k < |all|
      ensures HasYamlName(head + Uncut(pieces), all[k].to) == HeadHas(head, pieces != [], all[k].to)
    {
      YamlInHead(head + Uncut(pieces), head, all[k].to);
      assert |head| < |head + Uncut(pieces)| <==> Uncut(pieces) != "";
    }
  }

  /** What the script counts on: a line without any new name comes back. */
  lemma FreshLineRestored(line: string, all: seq<Pattern>, back: seq<Pattern>)
    requires Separate(all) && Separate(back) && Undoes(all, back)
    requires forall k :: 0 <= k < |all| ==> !HasYamlName(line, all[k].to)
    requires forall i: nat, k: nat :: k < |all| ==> !IsToken(Cut(line).pieces, i, all[k].to)
    ensures RewriteAll(RewriteAll(line, all), back) == line
  {
    LineRestored(line, all, back);
  }

  // ----- fences

  predicate IsFence(line: string) {
    Reads(line, AfterSpaces(line, 0), "```")
  }

  /** Only spaces, and then three backquotes on end. */
  ghost predicate FenceParts(head: string, pieces: seq<Piece>) {
    AllSpaces(head) && |pieces| >= 3
      && (forall i :: 0 <= i < 3 ==> pieces[i].quote == '`') && pieces[0].body == "" && pieces[1].body == ""
  }

  lemma ReadsThree(s: string, at: nat)
    ensures Reads(s, at, "```") <==> at + 3 <= |s| && s[at] == '`' && s[at + 1] == '`' && s[at + 2] == '`'
  {
    var fence := "```";
    assert fence[0] == '`' && fence[1] == '`' && fence[2] == '`';
    if Reads(s, at, fence) { assert s[at + 0] == fence[0] && s[at + 1] == fence[1] && s[at + 2] == fence[2]; }
  }

  lemma JoinReads(pieces: seq<Piece>)
    requires WellCut(pieces)
    ensures Reads(Uncut(pieces), 0, "```") <==> FenceParts("", pieces)
  {
    ReadsThree(Uncut(pieces), 0);
    if pieces != [] {
      WellCutRest(pieces);
      if pieces[0].body != "" {
        assert Uncut(pieces)[1] == pieces[0].body[0] && pieces[0].body[0] in pieces[0].body;
      } else if |pieces| > 1 {
        var rest := pieces[1..];
        WellCutRest(rest);
        assert Uncut(pieces) == [pieces[0].quote] + Uncut(rest);
        if rest[0].body != "" {
          assert Uncut(pieces)[2] == rest[0].body[0] && rest[0].body[0] in rest[0].body;
        } else if |pieces| > 2 {
          assert Uncut(rest) == [rest[0].quote] + Uncut(rest[1..]);
        }
      }
    }
  }

  lemma FenceOfParts(head: string, pieces: seq<Piece>)
    requires NoQuote(head) && WellCut(pieces)
    ensures IsFence(head + Uncut(pieces)) <==> FenceParts(head, pieces)
  {
    hide IsSpace, Uncut, WellCut;
    var s := head + Uncut(pieces);
    HeadContinues(head, pieces);
    SpacesInHead(s, head, 0);
    var at := AfterSpaces(head, 0);
    ReadsThree(s, at);
    if at < |head| {
      assert head[at] in head;
      assert !AllSpaces(head);
    } else {
      assert forall c :: c in head ==> exists k :: 0 <= k < |head| && head[k] == c;
      assert AllSpaces(head);
      JoinReads(pieces);
      assert forall k :: 0 <= k < |Uncut(pieces)| ==> s[|head| + k] == Uncut(pieces)[k];
    }
  }

  lemma NameEntryIsNoSpace(head: string, more: bool, name: string)
    requires HeadHas(head, more, name)
    ensures !AllSpaces(head)
  {
    var key := KeyStart(head);
    assert head[key + 0] == KEY[0] == 'n' && head[key] in head;
  }

  lemma SpacesKept(head: string, more: bool, all: seq<Pattern>)
    requires Separate(all)
    ensures AllSpaces(HeadAll(head, more, all)) <==> AllSpaces(head)
  {
    hide HeadHas, AllSpaces;
    HeadAllIs(head, more, all);
    if k: nat :| HeadRenames(head, more, all, k) {
      NameEntryIsNoSpace(head, more, all[k].from);
      HeadReplacedBy(head, more, all, k);
      NameEntryIsNoSpace(HeadAll(head, more, all), more, all[k].to);
    }
  }

  lemma EmptyKept(pieces: seq<Piece>, all: seq<Pattern>, i: nat)
    requires Separate(all) && i < |pieces|
    ensures PassAll(pieces, all)[i].body == "" <==> pieces[i].body == ""
  {
    PassAllAt(pieces, all, i);
    if k: nat :| Renames(pieces, all, i, k) {
      BelongsPrefix(pieces[i].body, all[k].from);
    }
  }

  /** No pass makes or unmakes a fence. */
  lemma FenceKept(line: string, all: seq<Pattern>)
    requires Separate(all)
    ensures IsFence(RewriteAll(line, all)) <==> IsFence(line)
  {
    hide Separate, WellCut, Uncut, HeadAll, PassAll, RewriteAll, IsFence, Cut;
    var head, pieces := Cut(line).head, Cut(line).pieces;
    CutWhole(line);
    RewriteAllParts(head, pieces, all);
    var now := PassAll(pieces, all);
    FenceOfParts(head, pieces);
    FenceOfParts(HeadAll(head, pieces != [], all), now);
    SpacesKept(head, pieces != [], all);
    forall i | 0 <= i < |pieces|
      ensures now[i].quote == pieces[i].quote && (now[i].body == "" <==> pieces[i].body == "")
    {
      PassAllQuotes(pieces, all, i);
      EmptyKept(pieces, all, i);
    }
    assert |now| == |pieces|;
  }

  // ----- files

  /** The lines of a text; `file` is its path in the repository. */
  predicate IsMarkdown(file: string) {
    |file| >= 3 && Reads(file, |file| - 3, ".md")
  }

  predicate IsProse(file: string) {
    IsMarkdown(file) && "docs/" <= file
  }

  /** Whether the first `n` lines leave a fence open. */
  predicate InsideFence(lines: seq<string>, n: nat)
    requires n <= |lines|
  {
    n > 0 && (InsideFence(lines, n - 1) != IsFence(lines[n - 1]))
  }

  /** The lines that follow the rename. */
  predicate Eligible(lines: seq<string>, file: string, i: nat)
    requires i < |lines|
  {
    IsMarkdown(file) ==> !IsFence(lines[i]) && (InsideFence(lines, i) || IsProse(file))
  }

  ghost function FencesBefore(lines: seq<string>, i: nat): set<nat>
    requires i <= |lines|
  {
    set k: nat | k < i && IsFence(lines[k])
  }

  /** The same by counting: a line follows the rename in a file that is not Markdown; under
      `docs/` when it is no fence; elsewhere when, besides, the fences before it are odd in number. */
  ghost predicate FollowsRename(lines: seq<string>, file: string, i: nat)
    requires i < |lines|
  {
    if |file| < 3 || file[|file| - 3..] != ".md" then true
    else !IsFence(lines[i]) && ("docs/" <= file || |FencesBefore(lines, i)| % 2 == 1)
  }

  lemma {:induction false} InsideWhenOdd(lines: seq<string>, n: nat)
    requires n <= |lines|
    ensures InsideFence(lines, n) <==> |FencesBefore(lines, n)| % 2 == 1
  {
    hide IsFence;
    if n == 0 {
      assert FencesBefore(lines, n) == {};
    } else {
      InsideWhenOdd(lines, n - 1);
      var before := FencesBefore(lines, n - 1);
      assert n - 1 !in before;
      assert FencesBefore(lines, n) == before + if IsFence(lines[n - 1]) then {n - 1} else {};
    }
  }

  lemma EligibleFollows(lines: seq<string>, file: string, i: nat)
    requires i < |lines|
    ensures Eligible(lines, file, i) <==> FollowsRename(lines, file, i)
  {
    hide IsFence;
    InsideWhenOdd(lines, i);
    if |file| >= 3 {
      var end := file[|file| - 3..];
      assert forall k :: 0 <= k < 3 ==> end[k] == file[|file| - 3 + k];
      assert IsMarkdown(file) <==> end == ".md";
    }
  }

  ghost predicate IsRewritten(lines: seq<string>, file: string, all: seq<Pattern>, out: seq<string>) {
    |out| == |lines| && forall i :: 0 <= i < |lines| ==>
      out[i] == if Eligible(lines, file, i) then RewriteAll(lines[i], all) else lines[i]
  }

  function CountChanged(a: seq<string>, b: seq<string>, n: nat): nat
    requires n <= |a| && n <= |b|
  {
    if n == 0 then 0 else CountChanged(a, b, n - 1) + if a[n - 1] != b[n - 1] then 1 else 0
  }

  ghost function ChangedLines(a: seq<string>, b: seq<string>, n: nat): set<nat>
    requires n <= |a| && n <= |b|
  {
    set k: nat | k < n && a[k] != b[k]
  }

  lemma {:induction false} ChangedCounted(a: seq<string>, b: seq<string>, n: nat)
    requires n <= |a| && n <= |b|
    ensures CountChanged(a, b, n) == |ChangedLines(a, b, n)|
  {
    if n == 0 {
      assert ChangedLines(a, b, n) == {};
    } else {
      ChangedCounted(a, b, n - 1);
      var before := ChangedLines(a, b, n - 1);
      assert n - 1 !in before;
      assert ChangedLines(a, b, n) == before + if a[n - 1] != b[n - 1] then {n - 1} else {};
    }
  }

  lemma NoneChanged(a: seq<string>, b: seq<string>, n: nat)
    requires n <= |a| && n <= |b|
    ensures CountChanged(a, b, n) == 0 <==> a[..n] == b[..n]
  {
    if n > 0 {
      assert a[..n] == a[..n - 1] + [a[n - 1]] && b[..n] == b[..n - 1] + [b[n - 1]];
    }
  }

  // ----- which patterns apply

  /** A file in which some upstream names are something else. */
  datatype Skip = Skip(file: string, upstream: seq<string>)

  predicate Skipped(skips: seq<Skip>, file: string, p: Pattern) {
    exists k :: 0 <= k < |skips| && skips[k].file == file && p.upstream in skips[k].upstream
  }

  function Active(skips: seq<Skip>, file: string, all: seq<Pattern>): seq<Pattern> {
    if all == [] then []
    else (if Skipped(skips, file, all[0]) then [] else [all[0]]) + Active(skips, file, all[1..])
  }

  lemma ActiveMembers(skips: seq<Skip>, file: string, all: seq<Pattern>)
    ensures forall p :: p in Active(skips, file, all) <==> p in all && !Skipped(skips, file, p)
    ensures forall p :: p in Active(skips, file, all) <==>
        p in all && forall skip :: skip in skips && skip.file == file ==> p.upstream !in skip.upstream
  {
  }

  lemma ActiveSeparate(skips: seq<Skip>, file: string, all: seq<Pattern>)
    requires Separate(all)
    ensures Separate(Active(skips, file, all))
  {
    if all != [] {
      SeparateRest(all);
      ActiveSeparate(skips, file, all[1..]);
      ActiveMembers(skips, file, all[1..]);
      if !Skipped(skips, file, all[0]) { SeparateFirst(all, Active(skips, file, all[1..])); }
    }
  }

  lemma LaterMember(all: seq<Pattern>, p: Pattern) returns (m: nat)
    requires all != [] && p in all[1..]
    ensures 0 < m < |all| && all[m] == p
  {
    var found :| 0 <= found < |all[1..]| && all[1..][found] == p;
    m := found + 1;
  }

  lemma SeparateFirst(all: seq<Pattern>, rest: seq<Pattern>)
    requires all != [] && Separate(all) && Separate(rest) && forall p :: p in rest ==> p in all[1..]
    ensures Separate([all[0]] + rest)
  {
    var p, now := all[0], [all[0]] + rest;
    forall j | 0 <= j < |rest|
      ensures Unrelated(p.from, rest[j].from) && Unrelated(p.to, rest[j].to) && Unrelated(p.from, rest[j].to)
          && Unrelated(rest[j].from, p.to)
    {
      assert rest[j] in rest;
      var m := LaterMember(all, rest[j]);
    }
    forall j | 0 < j < |now| ensures now[j] == rest[j - 1] {}
  }

  /** What one direction skips the other skips too. */
  lemma ActiveUndoes(skips: seq<Skip>, file: string, all: seq<Pattern>, back: seq<Pattern>)
    requires Undoes(all, back)
    ensures Undoes(Active(skips, file, all), Active(skips, file, back))
  {
    ActiveOpposed(skips, file, all, back);
    ActiveOpposed(skips, file, back, all);
  }

  lemma ActiveOpposed(skips: seq<Skip>, file: string, all: seq<Pattern>, back: seq<Pattern>)
    requires AllOpposed(all, back)
    ensures AllOpposed(Active(skips, file, all), Active(skips, file, back))
  {
    ActiveMembers(skips, file, all);
    ActiveMembers(skips, file, back);
    var some, opposed := Active(skips, file, all), Active(skips, file, back);
    forall k | 0 <= k < |some| ensures HasOpposite(opposed, some[k]) {
      assert some[k] in some;
      var m :| 0 <= m < |all| && all[m] == some[k];
      var l := OppositeOf(all, back, m);
      assert back[l] in back && back[l] in opposed;
      var j :| 0 <= j < |opposed| && opposed[j] == back[l];
      assert Opposite(some[k], opposed[j]);
    }
  }

  // ----- the rewrite

  method RewriteLine(line: string, file: string, skips: seq<Skip>, all: seq<Pattern>) returns (out: string)
    ensures out == RewriteAll(line, Active(skips, file, all))
  {
    hide RewriteOne, Skipped, RewriteAll;
    out := line;
    assert all[0..] == all;
    for k := 0 to |all|
      invariant RewriteAll(line, Active(skips, file, all)) == RewriteAll(out, Active(skips, file, all[k..]))
    {
      NextPattern(out, file, skips, all, k);
      if !Skipped(skips, file, all[k]) { out := RewriteOne(out, all[k]); }
    }
    NoPatterns(out, file, skips, all[|all|..]);
  }

  lemma NoPatterns(line: string, file: string, skips: seq<Skip>, all: seq<Pattern>)
    requires all == []
    ensures RewriteAll(line, Active(skips, file, all)) == line
  {
  }

  lemma NextPattern(line: string, file: string, skips: seq<Skip>, all: seq<Pattern>, k: nat)
    requires k < |all|
    ensures RewriteAll(line, Active(skips, file, all[k..]))
         == RewriteAll(if Skipped(skips, file, all[k]) then line else RewriteOne(line, all[k]),
           Active(skips, file, all[k + 1..]))
  {
    hide RewriteOne, Skipped;
    assert all[k..][0] == all[k] && all[k..][1..] == all[k + 1..];
    var rest := Active(skips, file, all[k + 1..]);
    if Skipped(skips, file, all[k]) {
      assert Active(skips, file, all[k..]) == [] + rest == rest;
    } else {
      assert ([all[k]] + rest)[1..] == rest;
    }
  }

  method Rewrite(lines: seq<string>, file: string, skips: seq<Skip>, all: seq<Pattern>)
    returns (out: seq<string>, changed: nat)
    ensures IsRewritten(lines, file, Active(skips, file, all), out)
    ensures forall i :: 0 <= i < |lines| ==>
        out[i] == if FollowsRename(lines, file, i) then RewriteAll(lines[i], Active(skips, file, all)) else lines[i]
    ensures changed == CountChanged(lines, out, |lines|) == |ChangedLines(lines, out, |lines|)|
  {
    hide RewriteAll, Active, IsFence, FollowsRename;
    var markdown := IsMarkdown(file);
    var prose := markdown && "docs/" <= file;
    var insideFence := false;
    out, changed := [], 0;
    for i := 0 to |lines|
      invariant markdown ==> insideFence == InsideFence(lines, i)
      invariant |out| == i && changed == CountChanged(lines, out, i)
      invariant forall j :: 0 <= j < i ==>
          out[j] == if Eligible(lines, file, j) then RewriteAll(lines[j], Active(skips, file, all)) else lines[j]
    {
      var next := lines[i];
      if markdown && IsFence(lines[i]) {
        insideFence := !insideFence;
      } else if !markdown || insideFence || prose {
        next := RewriteLine(lines[i], file, skips, all);
      }
      CountSame(lines, out, out + [next], i);
      out := out + [next];
      if lines[i] != next { changed := changed + 1; }
    }
    ChangedCounted(lines, out, |lines|);
    forall i | 0 <= i < |lines| ensures Eligible(lines, file, i) <==> FollowsRename(lines, file, i) {
      EligibleFollows(lines, file, i);
    }
  }

  lemma CountSame(a: seq<string>, b: seq<string>, c: seq<string>, n: nat)
    requires n <= |a| && n <= |b| && b <= c
    ensures CountChanged(a, b, n) == CountChanged(a, c, n)
  {
    if n > 0 {
      CountSame(a, b, c, n - 1);
      assert c[..|b|][n - 1] == b[n - 1];
    }
  }

  // ----- laws of files

  /** Both passes read the same lines: no rewrite changes which lines are fences. */
  lemma {:induction false} FencesKept(lines: seq<string>, file: string, all: seq<Pattern>, out: seq<string>, n: nat)
    requires Separate(all) && IsRewritten(lines, file, all, out) && n <= |lines|
    ensures InsideFence(out, n) == InsideFence(lines, n)
    ensures forall i :: 0 <= i < n ==> IsFence(out[i]) == IsFence(lines[i])
  {
    hide IsFence, RewriteAll, Separate;
    if n > 0 {
      FencesKept(lines, file, all, out, n - 1);
      FenceKept(lines[n - 1], all);
    }
  }

  lemma EligibleKept(lines: seq<string>, file: string, all: seq<Pattern>, out: seq<string>)
    requires Separate(all) && IsRewritten(lines, file, all, out)
    ensures forall i :: 0 <= i < |lines| ==> Eligible(out, file, i) == Eligible(lines, file, i)
  {
    hide IsFence, RewriteAll, Separate;
    forall i | 0 <= i < |lines| ensures Eligible(out, file, i) == Eligible(lines, file, i) {
      FencesKept(lines, file, all, out, i);
      FenceKept(lines[i], all);
    }
  }

  /** A second run finds nothing to do exactly when no eligible line has a shared quote. */
  lemma FileIdempotent(lines: seq<string>, file: string, all: seq<Pattern>, out: seq<string>, again: seq<string>)
    requires Separate(all) && IsRewritten(lines, file, all, out) && IsRewritten(out, file, all, again)
    ensures again == out <==>
        forall j :: 0 <= j < |lines| && Eligible(lines, file, j) ==> !HasSharedQuote(lines[j], all)
    ensures CountChanged(out, again, |lines|) == 0 <==> again == out
  {
    hide RewriteAll, Separate, HasSharedQuote, Eligible;
    EligibleKept(lines, file, all, out);
    forall j | 0 <= j < |lines| && Eligible(lines, file, j)
      ensures again[j] == out[j] <==> !HasSharedQuote(lines[j], all)
    {
      LineIdempotent(lines[j], all);
    }
    NoneChanged(out, again, |lines|);
    assert out[..|lines|] == out && again[..|lines|] == again;
  }

  /** The reverse run restores the file exactly when every eligible line is restorable. */
  lemma FileRestored(lines: seq<string>, file: string, skips: seq<Skip>, all: seq<Pattern>, back: seq<Pattern>,
        out: seq<string>, restored: seq<string>)
    requires Separate(all) && Separate(back) && Undoes(all, back)
    requires IsRewritten(lines, file, Active(skips, file, all), out)
        && IsRewritten(out, file, Active(skips, file, back), restored)
    ensures restored == lines <==>
        forall j: nat :: j < |lines| && Eligible(lines, file, j) ==> Restorable(lines[j], Active(skips, file, all))
  {
    hide IsFence, RewriteAll, Separate, Restorable, Undoes, Active, Eligible;
    var some, opposed := Active(skips, file, all), Active(skips, file, back);
    ActiveSeparate(skips, file, all);
    ActiveSeparate(skips, file, back);
    ActiveUndoes(skips, file, all, back);
    EligibleKept(lines, file, some, out);
    forall j: nat | j < |lines| && Eligible(lines, file, j)
      ensures restored[j] == lines[j] <==> Restorable(lines[j], some)
    {
      LineRestored(lines[j], some, opposed);
    }
  }

  // ----- the table of renames

  datatype Rename = Rename(upstream: string, scoped: string)

  function Unsorted(renames: seq<Rename>, reverse: bool): (all: seq<Pattern>)
    ensures |all| == |renames|
    ensures forall i :: 0 <= i < |all| ==>
              all[i] == if reverse then Pattern(renames[i].upstream, renames[i].scoped, renames[i].upstream)
                        else Pattern(renames[i].upstream, renames[i].upstream, renames[i].scoped)
  {
    if renames == [] then []
    else
      var r := renames[0];
      [if reverse then Pattern(r.upstream, r.scoped, r.upstream) else Pattern(r.upstream, r.upstream, r.scoped)]
        + Unsorted(renames[1..], reverse)
  }

  function LongestFirst(): (Pattern, Pattern) -> int {
    (left: Pattern, right: Pattern) => |right.from| - |left.from|
  }

  /** The patterns of one direction, longest name first. */
  method Patterns(renames: seq<Rename>, reverse: bool) returns (all: seq<Pattern>)
    ensures forall p :: p in all <==> p in Unsorted(renames, reverse)
    ensures forall i, j :: 0 <= i < j < |all| ==> |all[i].from| >= |all[j].from|
    ensures Separate(Unsorted(renames, false)) ==> Separate(all)
  {
    var unsorted := Unsorted(renames, reverse);
    var sorted, order := StableSort(unsorted, LongestFirst());
    all := sorted;
    forall i, j | 0 <= i < j < |all| ensures |all[i].from| >= |all[j].from| {
      assert InOrder(unsorted, LongestFirst(), order[i], order[j]);
    }
    SortedMembers(unsorted, LongestFirst(), order, all);
    if Separate(Unsorted(renames, false)) {
      ReverseSeparate(renames, reverse);
      SortedSeparate(unsorted, order, all);
    }
  }

  lemma SortedSeparate(unsorted: seq<Pattern>, order: seq<nat>, all: seq<Pattern>)
    requires Separate(unsorted) && Orders(unsorted, LongestFirst(), order, |unsorted|)
    requires |all| == |unsorted| && forall i :: 0 <= i < |all| ==> all[i] == unsorted[order[i]]
    ensures Separate(all)
  {
    forall i, j | 0 <= i < j < |all| ensures Unrelated(all[i].from, all[j].from) && Unrelated(all[i].to, all[j].to) {
      assert InOrder(unsorted, LongestFirst(), order[i], order[j]);
      assert order[i] < order[j] || order[j] < order[i];
    }
  }

  lemma ReverseSeparate(renames: seq<Rename>, reverse: bool)
    requires Separate(Unsorted(renames, false))
    ensures Separate(Unsorted(renames, reverse))
  {
    var all, back := Unsorted(renames, false), Unsorted(renames, reverse);
    if reverse {
      forall i | 0 <= i < |back| ensures back[i].from == all[i].to && back[i].to == all[i].from {}
    }
  }

  /** The two directions undo one another. */
  lemma DirectionsUndo(renames: seq<Rename>, all: seq<Pattern>, back: seq<Pattern>)
    requires forall p :: p in all <==> p in Unsorted(renames, false)
    requires forall p :: p in back <==> p in Unsorted(renames, true)
    ensures Undoes(all, back)
  {
    DirectionOpposed(renames, false, all, back);
    DirectionOpposed(renames, true, back, all);
  }

  lemma DirectionOpposed(renames: seq<Rename>, reverse: bool, all: seq<Pattern>, back: seq<Pattern>)
    requires forall p :: p in all <==> p in Unsorted(renames, reverse)
    requires forall p :: p in back <==> p in Unsorted(renames, !reverse)
    ensures AllOpposed(all, back)
  {
    var here, there := Unsorted(renames, reverse), Unsorted(renames, !reverse);
    forall k | 0 <= k < |all| ensures HasOpposite(back, all[k]) {
      assert all[k] in all;
      var i :| 0 <= i < |here| && here[i] == all[k];
      assert there[i] in there && there[i] in back;
      var l :| 0 <= l < |back| && back[l] == there[i];
      assert Opposite(all[k], back[l]);
    }
  }

  // ----- the names themselves

  const RENAMES: seq<Rename> := [
    Rename("cordis", "@deepseek-ai/cordis"),
    Rename("cosmokit", "@deepseek-ai/cosmokit"),
    Rename("schemastery", "@deepseek-ai/schemastery"),
    Rename("@cordisjs/plugin-loader", "@deepseek-ai/cordis-plugin-loader"),
    Rename("@cordisjs/plugin-include", "@deepseek-ai/cordis-plugin-include"),
    Rename("@cordisjs/plugin-group", "@deepseek-ai/cordis-plugin-group"),
    Rename("@cordisjs/plugin-timer", "@deepseek-ai/cordis-plugin-timer"),
    Rename("@cordisjs/plugin-hmr", "@deepseek-ai/cordis-plugin-hmr"),
    Rename("@cordisjs/plugin-logger-console", "@deepseek-ai/cordis-plugin-logger-console")]

  lemma PartedAreUnrelated(a: string, b: string, at: nat)
    requires at < |a| && at < |b| && a[at] != b[at]
    ensures Unrelated(a, b)
  {
    assert (a + "/")[at] == a[at] && (b + "/")[at] == b[at];
  }

  lemma LongerIsUnrelated(a: string, b: string)
    requires |a| < |b| && b[|a|] != '/'
    ensures Unrelated(a, b)
  {
    assert (a + "/")[|a|] == '/';
  }

  lemma UpstreamNamesApart(i: nat, j: nat)
    requires i < j < 9
    ensures Unrelated(RENAMES[i].upstream, RENAMES[j].upstream)
  {
    var at := if i < 3 then (if j < 3 then 2 else 0) else if i == 3 && j == 8 then 19 else 17;
    PartedAreUnrelated(RENAMES[i].upstream, RENAMES[j].upstream, at);
  }

  lemma ScopedNamesApart(i: nat, j: nat)
    requires i < j < 9
    ensures Unrelated(RENAMES[i].scoped, RENAMES[j].scoped)
  {
    if i == 0 && j >= 3 {
      LongerIsUnrelated(RENAMES[i].scoped, RENAMES[j].scoped);
    } else {
      var at := if i == 3 && j == 8 then 29 else if i >= 3 then 27 else if i == 2 || j == 2 then 13 else 15;
      PartedAreUnrelated(RENAMES[i].scoped, RENAMES[j].scoped, at);
    }
  }

  lemma Beginnings(i: nat)
    requires i < 9
    ensures var u := RENAMES[i].upstream; |u| > 1 && (if i < 3 then u[0] != '@' else u[1] == 'c')
    ensures var s := RENAMES[i].scoped; |s| > 1 && s[0] == '@' && s[1] == 'd'
    ensures |RENAMES| == 9
  {
  }

  lemma DirectionsApart(i: nat, j: nat)
    requires i < 9 && j < 9
    ensures Unrelated(RENAMES[i].upstream, RENAMES[j].scoped)
  {
    hide RENAMES;
    Beginnings(i);
    Beginnings(j);
    PartedAreUnrelated(RENAMES[i].upstream, RENAMES[j].scoped, if i < 3 then 0 else 1);
  }

  predicate IsPlain(c: char) {
    'a' <= c <= 'z' || c == '@' || c == '/' || c == '-'
  }

  lemma PlainIsName(name: string)
    requires PlainName(name)
    ensures IsName(name)
  {
    forall c | c in name ensures !IsQuote(c) && !IsSpace(c) && c != '#' {
      var k :| 0 <= k < |name| && name[k] == c;
    }
  }

  lemma AllAreNames(i: nat)
    requires i < 9
    ensures IsName(RENAMES[i].upstream) && IsName(RENAMES[i].scoped)
  {
    hide IsName, PlainName, RENAMES;
    Beginnings(i);
    UpstreamIsPlain(i);
    ScopedIsPlain(i);
    PlainIsName(RENAMES[i].upstream);
    PlainIsName(RENAMES[i].scoped);
  }

  ghost predicate PlainName(name: string) {
    name != "" && forall k :: 0 <= k < |name| ==> IsPlain(name[k])
  }

  lemma EarlierUpstreamIsPlain(i: nat)
    requires i < 5
    ensures PlainName(RENAMES[i].upstream)
  {
  }

  lemma LaterUpstreamIsPlain(i: nat)
    requires 5 <= i < 7
    ensures PlainName(RENAMES[i].upstream)
  {
  }

  lemma LastUpstreamIsPlain(i: nat)
    requires 7 <= i < 9
    ensures PlainName(RENAMES[i].upstream)
  {
  }

  lemma EarlierScopedIsPlain(i: nat)
    requires i < 5
    ensures PlainName(RENAMES[i].scoped)
  {
  }

  lemma LaterScopedIsPlain(i: nat)
    requires 5 <= i < 7
    ensures PlainName(RENAMES[i].scoped)
  {
  }

  lemma LastScopedIsPlain(i: nat)
    requires 7 <= i < 9
    ensures PlainName(RENAMES[i].scoped)
  {
  }

  lemma UpstreamIsPlain(i: nat)
    requires i < 9
    ensures PlainName(RENAMES[i].upstream)
  {
    hide PlainName, RENAMES;
    Beginnings(i);
    if i >= 7 {
      LastUpstreamIsPlain(i);
    } else if i >= 5 {
      LaterUpstreamIsPlain(i);
    } else {
      EarlierUpstreamIsPlain(i);
    }
  }

  lemma ScopedIsPlain(i: nat)
    requires i < 9
    ensures PlainName(RENAMES[i].scoped)
  {
    hide PlainName, RENAMES;
    Beginnings(i);
    if i >= 7 { LastScopedIsPlain(i); } else if i >= 5 { LaterScopedIsPlain(i); } else { EarlierScopedIsPlain(i); }
  }

  /** No text can be taken for two of the nine packages, old name or new. */
  lemma TableIsSeparate()
    ensures Separate(Unsorted(RENAMES, false))
  {
    hide Unrelated, IsName, RENAMES, Unsorted;
    Beginnings(0);
    var all := Unsorted(RENAMES, false);
    forall i | 0 <= i < 9 ensures IsName(all[i].from) && IsName(all[i].to) { AllAreNames(i); }
    forall i, j | 0 <= i < j < 9 ensures Unrelated(all[i].from, all[j].from) && Unrelated(all[i].to, all[j].to) {
      UpstreamNamesApart(i, j);
      ScopedNamesApart(i, j);
    }
    forall i, j | 0 <= i < 9 && 0 <= j < 9 ensures Unrelated(all[i].from, all[j].to) { DirectionsApart(i, j); }
  }

  /** Every rename has a text that a second run changes again, such as `'cordis'cordis'`. */
  lemma AdjacentTokensShareAQuote(q: char, all: seq<Pattern>, k: nat)
    requires Separate(all) && k < |all| && IsQuote(q)
    ensures HasSharedQuote([q] + all[k].from + [q] + all[k].from + [q], all)
  {
    hide Pass, RewriteAll;
    var from := all[k].from;
    var pieces := [Piece(q, from), Piece(q, from), Piece(q, "")];
    CutUnique("", pieces);
    assert pieces[1..] == [Piece(q, from), Piece(q, "")] && pieces[1..][1..] == [Piece(q, "")];
    assert Uncut([Piece(q, "")]) == [q];
    assert Uncut(pieces[1..]) == [q] + from + [q];
    assert "" + Uncut(pieces) == [q] + from + [q] + from + [q];
    assert SharesQuote(pieces, all, 0, k);
  }

  /** Every rename has a text that the reverse run does not restore: its new name in quotes,
      such as `'@deepseek-ai/cordis'`, which the rename leaves and its reverse changes. */
  lemma QuotedNewNameNotRestored(q: char, all: seq<Pattern>, back: seq<Pattern>, k: nat)
    requires Separate(all) && Separate(back) && Undoes(all, back) && k < |all| && IsQuote(q)
    ensures var line := [q] + all[k].to + [q]; RewriteAll(RewriteAll(line, all), back) != line
  {
    hide Pass, RewriteAll, Undoes;
    var line, pieces := [q] + all[k].to + [q], [Piece(q, all[k].to), Piece(q, "")];
    CutUnique("", pieces);
    assert pieces[1..] == [Piece(q, "")] && Uncut([Piece(q, "")]) == [q];
    assert "" + Uncut(pieces) == line;
    assert IsToken(pieces, 0, all[k].to);
    assert !Shielded(pieces, all, 0, k);
    LineRestored(line, all, back);
  }
}
