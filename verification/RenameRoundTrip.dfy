/** Laws of the rename on one line, cut at its quotes: when applying it again changes
    nothing, and when the reverse rename restores the line. Both are decided by the tokens
    that share a quote; the YAML value before the first quote is a matter of its own. */
module RenameRoundTrip {
  import opened Text
  import opened Wrappers
  import opened TokenRename

  // ----- what tokens there are after all passes

  /** A renamed token is a token of the new name and of no other. */
  lemma RenamedDiffers(body: string, from: string, to: string)
    requires Belongs(body, from) && IsName(to) && Unrelated(from, to)
    ensures Renamed(body, from, to) != body && !Belongs(Renamed(body, from, to), from)
  {
    RenamedBelongs(body, from, to);
    if Belongs(Renamed(body, from, to), from) {
      BelongsToOne(Renamed(body, from, to), from, to);
      SelfRelated(from);
    }
  }

  lemma PassAllQuotes(pieces: seq<Piece>, all: seq<Pattern>, i: nat)
    requires Separate(all) && i < |pieces|
    ensures PassAll(pieces, all)[i].quote == pieces[i].quote
  {
    PassAllAt(pieces, all, i);
    if k: nat :| Renames(pieces, all, i, k) {}
  }

  /** Old names: what was not renamed is left. */
  lemma OldTokensAfter(pieces: seq<Piece>, all: seq<Pattern>, i: nat, k: nat)
    requires Separate(all) && k < |all|
    ensures IsToken(PassAll(pieces, all), i, all[k].from) <==>
        IsToken(pieces, i, all[k].from) && !Renames(pieces, all, i, k)
  {
    hide Belongs, Renamed, Separate;
    if i + 1 < |pieces| {
      PassAllAt(pieces, all, i);
      PassAllQuotes(pieces, all, i);
      PassAllQuotes(pieces, all, i + 1);
      if l: nat :| Renames(pieces, all, i, l) { OldTokenRenamed(pieces, all, i, k, l); }
    }
  }

  lemma OldTokenRenamed(pieces: seq<Piece>, all: seq<Pattern>, i: nat, k: nat, l: nat)
    requires Separate(all) && k < |all| && Renames(pieces, all, i, l)
    ensures !Belongs(Renamed(pieces[i].body, all[l].from, all[l].to), all[k].from)
    ensures k != l ==> !Belongs(pieces[i].body, all[k].from)
  {
    RenamedBelongs(pieces[i].body, all[l].from, all[l].to);
    Apart(Renamed(pieces[i].body, all[l].from, all[l].to), all[k].from, all[l].to);
    if k < l {
      Apart(pieces[i].body, all[k].from, all[l].from);
    } else if l < k {
      assert Unrelated(all[l].from, all[k].from);
      Apart(pieces[i].body, all[k].from, all[l].from);
    }
  }

  /** New names: those there were, and those just given. */
  lemma NewTokensAfter(pieces: seq<Piece>, all: seq<Pattern>, i: nat, k: nat)
    requires Separate(all) && k < |all|
    ensures IsToken(PassAll(pieces, all), i, all[k].to) <==> IsToken(pieces, i, all[k].to) || Renames(pieces, all, i, k)
    ensures !(IsToken(pieces, i, all[k].to) && Renames(pieces, all, i, k))
  {
    hide Belongs, Renamed, Separate;
    if i + 1 < |pieces| {
      PassAllAt(pieces, all, i);
      PassAllQuotes(pieces, all, i);
      PassAllQuotes(pieces, all, i + 1);
      if l: nat :| Renames(pieces, all, i, l) { NewTokenRenamed(pieces, all, i, k, l); }
    } else {
      assert |PassAll(pieces, all)| == |pieces|;
    }
  }

  lemma NewTokenRenamed(pieces: seq<Piece>, all: seq<Pattern>, i: nat, k: nat, l: nat)
    requires Separate(all) && k < |all| && Renames(pieces, all, i, l)
    ensures !Belongs(pieces[i].body, all[k].to)
    ensures NoSpace(Renamed(pieces[i].body, all[l].from, all[l].to))
    ensures Belongs(Renamed(pieces[i].body, all[l].from, all[l].to), all[k].to) <==> k == l
    ensures Renames(pieces, all, i, k) ==> k == l
  {
    var now := Renamed(pieces[i].body, all[l].from, all[l].to);
    RenamedBelongs(pieces[i].body, all[l].from, all[l].to);
    assert Unrelated(all[l].from, all[k].to);
    Apart(pieces[i].body, all[k].to, all[l].from);
    if k < l {
      Apart(now, all[k].to, all[l].to);
    } else if l < k {
      assert Unrelated(all[l].to, all[k].to);
      Apart(now, all[k].to, all[l].to);
    }
    if Renames(pieces, all, i, k) { RenamesOnce(pieces, all, i, k, l); }
  }

  /** What a pattern renames is changed by it. */
  lemma RenamesChanges(pieces: seq<Piece>, all: seq<Pattern>, i: nat, k: nat)
    requires Separate(all) && i < |pieces| && Renames(pieces, all, i, k)
    ensures PassAll(pieces, all)[i] != pieces[i]
  {
    hide Belongs, Renamed;
    PassAllAt(pieces, all, i);
    RenamedDiffers(pieces[i].body, all[k].from, all[k].to);
  }

  lemma NothingRenamed(pieces: seq<Piece>, all: seq<Pattern>)
    requires Separate(all) && forall i: nat, k: nat :: i < |pieces| ==> !Renames(pieces, all, i, k)
    ensures PassAll(pieces, all) == pieces
  {
    forall i | 0 <= i < |pieces| ensures PassAll(pieces, all)[i] == pieces[i] {
      PassAllAt(pieces, all, i);
    }
  }

  // ----- applying the rename again

  /** One quote closes a token and opens the next, both of the name that pattern `k` renames. */
  ghost predicate SharesQuote(pieces: seq<Piece>, all: seq<Pattern>, i: nat, k: nat) {
    k < |all| && IsToken(pieces, i, all[k].from) && IsToken(pieces, i + 1, all[k].from)
  }

  lemma UnpickedShares(pieces: seq<Piece>, all: seq<Pattern>, i: nat, k: nat)
    requires k < |all| && IsToken(pieces, i, all[k].from) && !Renames(pieces, all, i, k)
    ensures i > 0 && SharesQuote(pieces, all, i - 1, k)
  {
    assert i > 0 && Picked(pieces, i - 1, all[k].from, false);
    assert IsToken(pieces, i - 1, all[k].from);
  }

  lemma TokensIdempotentWhenApart(pieces: seq<Piece>, all: seq<Pattern>)
    requires Separate(all) && forall i: nat, k: nat :: !SharesQuote(pieces, all, i, k)
    ensures PassAll(PassAll(pieces, all), all) == PassAll(pieces, all)
  {
    var once := PassAll(pieces, all);
    forall i: nat, k: nat | i < |once| ensures !Renames(once, all, i, k) {
      if k < |all| {
        OldTokensAfter(pieces, all, i, k);
        if IsToken(once, i, all[k].from) { UnpickedShares(pieces, all, i, k); }
      }
    }
    NothingRenamed(once, all);
  }

  lemma TokensChangeAgainWhenShared(pieces: seq<Piece>, all: seq<Pattern>, i: nat, k: nat)
    requires Separate(all) && SharesQuote(pieces, all, i, k)
    ensures PassAll(PassAll(pieces, all), all) != PassAll(pieces, all)
  {
    var once := PassAll(pieces, all);
    var left := if Renames(pieces, all, i, k) then i + 1 else i;
    OldTokensAfter(pieces, all, left, k);
    assert Picked(once, left, all[k].from, false) || (left > 0 && Picked(once, left - 1, all[k].from, false));
    var j: nat := if Picked(once, left, all[k].from, false) then left else left - 1;
    assert Renames(once, all, j, k);
    RenamesChanges(once, all, j, k);
  }

  // ----- renaming back

  /** `back` undoes `all`, in whatever order its patterns come. */
  ghost predicate Undoes(all: seq<Pattern>, back: seq<Pattern>) {
    AllOpposed(all, back) && AllOpposed(back, all)
  }

  ghost predicate AllOpposed(all: seq<Pattern>, back: seq<Pattern>) {
    forall k :: 0 <= k < |all| ==> HasOpposite(back, all[k])
  }

  ghost predicate HasOpposite(back: seq<Pattern>, p: Pattern) {
    exists l :: 0 <= l < |back| && Opposite(p, back[l])
  }

  ghost predicate Opposite(p: Pattern, q: Pattern) {
    p.from == q.to && p.to == q.from && p.upstream == q.upstream
  }

  lemma OppositeOf(all: seq<Pattern>, back: seq<Pattern>, k: nat) returns (l: nat)
    requires AllOpposed(all, back) && k < |all|
    ensures l < |back| && Opposite(all[k], back[l])
  {
    assert HasOpposite(back, all[k]);
    var found :| 0 <= found < |back| && Opposite(all[k], back[found]);
    l := found;
  }

  /** A new name that is there already does no harm only where the token before it,
      sharing its quote and of the same package, is about to be renamed. */
  ghost predicate Shielded(pieces: seq<Piece>, all: seq<Pattern>, i: nat, k: nat) {
    k < |all| && IsToken(pieces, i, all[k].to) ==> i > 0 && Renames(pieces, all, i - 1, k)
  }

  lemma {:induction false} BackPicksSame(pieces: seq<Piece>, all: seq<Pattern>, i: nat, k: nat)
    requires Separate(all) && k < |all| && forall j: nat :: Shielded(pieces, all, j, k)
    ensures Picked(PassAll(pieces, all), i, all[k].to, false) <==> Renames(pieces, all, i, k)
  {
    NewTokensAfter(pieces, all, i, k);
    assert Shielded(pieces, all, i, k);
    if i > 0 { BackPicksSame(pieces, all, i - 1, k); }
  }

  lemma RestoredWhenShielded(pieces: seq<Piece>, all: seq<Pattern>, back: seq<Pattern>)
    requires Separate(all) && Separate(back) && Undoes(all, back)
    requires forall i: nat, k: nat :: Shielded(pieces, all, i, k)
    ensures PassAll(PassAll(pieces, all), back) == pieces
  {
    hide Separate, Renamed, Shielded, Picked;
    var once := PassAll(pieces, all);
    forall i | 0 <= i < |pieces| ensures PassAll(once, back)[i] == pieces[i] {
      RestoredAt(pieces, all, back, i);
    }
  }

  lemma RestoredAt(pieces: seq<Piece>, all: seq<Pattern>, back: seq<Pattern>, i: nat)
    requires Separate(all) && Separate(back) && Undoes(all, back) && i < |pieces|
    requires forall i: nat, k: nat :: Shielded(pieces, all, i, k)
    ensures PassAll(PassAll(pieces, all), back)[i] == pieces[i]
  {
    hide Separate, Renamed, Shielded, PassAll, NoSpace, AllOpposed;
    var once := PassAll(pieces, all);
    PassAllAt(pieces, all, i);
    PassAllAt(once, back, i);
    if k: nat :| Renames(pieces, all, i, k) {
      var l := OppositeOf(all, back, k);
      BackPicksSame(pieces, all, i, k);
      assert Renames(once, back, i, l);
      UndoneAt(pieces[i].body, all, k);
    } else {
      forall l: nat ensures !Renames(once, back, i, l) {
        if l < |back| {
          var k := OppositeOf(back, all, l);
          BackPicksSame(pieces, all, i, k);
        }
      }
    }
  }

  lemma UndoneAt(body: string, all: seq<Pattern>, k: nat)
    requires Separate(all) && k < |all| && Belongs(body, all[k].from)
    ensures Renamed(Renamed(body, all[k].from, all[k].to), all[k].to, all[k].from) == body
  {
    RenamedBelongs(body, all[k].from, all[k].to);
  }

  /** When the text is restored, the reverse passes pick exactly what was renamed. */
  lemma RestoredPicksSame(pieces: seq<Piece>, all: seq<Pattern>, back: seq<Pattern>, i: nat, k: nat)
    requires Separate(all) && Separate(back) && Undoes(all, back) && k < |all|
    requires PassAll(PassAll(pieces, all), back) == pieces
    ensures Picked(PassAll(pieces, all), i, all[k].to, false) <==> Renames(pieces, all, i, k)
  {
    hide Renamed, IsToken, Separate, PassAll, Picked, AllOpposed;
    var l := OppositeOf(all, back, k);
    if Renames(pieces, all, i, k) { RenamedIsPickedBack(pieces, all, back, i, k, l); }
    if Picked(PassAll(pieces, all), i, all[k].to, false) { PickedBackWasRenamed(pieces, all, back, i, k, l); }
  }

  lemma RenamedIsPickedBack(pieces: seq<Piece>, all: seq<Pattern>, back: seq<Pattern>, i: nat, k: nat, l: nat)
    requires Separate(all) && Separate(back) && k < |all| && l < |back| && Opposite(all[k], back[l])
    requires PassAll(PassAll(pieces, all), back) == pieces && Renames(pieces, all, i, k)
    ensures Picked(PassAll(pieces, all), i, all[k].to, false)
  {
    hide Renamed, Separate, PassAll, Belongs, NoSpace;
    var once := PassAll(pieces, all);
    NewTokensAfter(pieces, all, i, k);
    RenamesChanges(pieces, all, i, k);
    PassAllAt(once, back, i);
    assert exists m: nat :: Renames(once, back, i, m);
    var m: nat :| Renames(once, back, i, m);
    BelongsOnce(once, back, i, l, m);
  }

  lemma PickedBackWasRenamed(pieces: seq<Piece>, all: seq<Pattern>, back: seq<Pattern>, i: nat, k: nat, l: nat)
    requires Separate(all) && Separate(back) && k < |all| && l < |back| && Opposite(all[k], back[l])
    requires PassAll(PassAll(pieces, all), back) == pieces && Picked(PassAll(pieces, all), i, all[k].to, false)
    ensures Renames(pieces, all, i, k)
  {
    hide Renamed, Separate, PassAll, Belongs, NoSpace;
    var once := PassAll(pieces, all);
    NewTokensAfter(pieces, all, i, k);
    if !Renames(pieces, all, i, k) {
      assert Renames(once, back, i, l);
      RenamesChanges(once, back, i, l);
      NewNameKept(pieces, all, i, k);
    }
  }

  /** The token is of name `l`, and pattern `m` picks it: they are one. */
  lemma BelongsOnce(once: seq<Piece>, back: seq<Pattern>, i: nat, l: nat, m: nat)
    requires Separate(back) && l < |back| && IsToken(once, i, back[l].from) && Renames(once, back, i, m)
    ensures l == m
  {
    BelongsToOne(once[i].body, back[l].from, back[m].from);
    if l != m { FromApart(back, l, m); }
  }

  /** A token of a new name is left alone. */
  lemma NewNameKept(pieces: seq<Piece>, all: seq<Pattern>, i: nat, k: nat)
    requires Separate(all) && k < |all| && IsToken(pieces, i, all[k].to)
    ensures PassAll(pieces, all)[i] == pieces[i]
  {
    PassAllAt(pieces, all, i);
    forall l: nat ensures !Renames(pieces, all, i, l) {
      if l < |all| && IsToken(pieces, i, all[l].from) {
        assert Unrelated(all[l].from, all[k].to);
        Apart(pieces[i].body, all[l].from, all[k].to);
      }
    }
  }

  lemma ShieldedWhenRestored(pieces: seq<Piece>, all: seq<Pattern>, back: seq<Pattern>, i: nat, k: nat)
    requires Separate(all) && Separate(back) && Undoes(all, back)
    requires PassAll(PassAll(pieces, all), back) == pieces
    ensures Shielded(pieces, all, i, k)
  {
    hide PassAll, IsToken, Separate, Undoes;
    if k < |all| && IsToken(pieces, i, all[k].to) {
      NewTokensAfter(pieces, all, i, k);
      RestoredPicksSame(pieces, all, back, i, k);
      if i > 0 { RestoredPicksSame(pieces, all, back, i - 1, k); }
    }
  }

  // ----- the YAML name, before the first quote

  predicate IsHeadSuffix(head: string, at: nat, more: bool)
    requires at <= |head|
  {
    var n := AfterBlanks(head, at);
    if n == |head| then !more else head[n] == '#'
  }

  /** The text before the first quote gives the name; `more` says that a quote follows. */
  predicate HeadHas(head: string, more: bool, name: string) {
    var at := YamlValueStart(head);
    at.Some? && Reads(head, at.value, name) && IsHeadSuffix(head, at.value + |name|, more)
  }

  function ReplaceHead(head: string, more: bool, from: string, to: string): string {
    if HeadHas(head, more, from) then
      var at := YamlValueStart(head).value;
      head[..at] + to + head[at + |from|..]
    else head
  }

  /** `s` continues `head`, with a quote if with anything. */
  ghost predicate Continues(s: string, head: string) {
    && |head| <= |s| && NoQuote(head)
    && (forall k :: 0 <= k < |head| ==> s[k] == head[k])
    && (|head| < |s| ==> IsQuote(s[|head|]))
  }

  lemma SpacesInHead(s: string, head: string, from: nat)
    requires Continues(s, head) && from <= |head|
    ensures AfterSpaces(s, from) == AfterSpaces(head, from)
  {
    var at := AfterSpaces(head, from);
    if at < |s| && at == |head| { QuotesAreNoSpaces(s[at]); }
    hide IsSpace;
    AfterSpacesIs(s, from, at);
  }

  lemma BlanksInHead(s: string, head: string, from: nat)
    requires Continues(s, head) && from <= |head|
    ensures AfterBlanks(s, from) == AfterBlanks(head, from)
  {
    AfterBlanksIs(s, from, AfterBlanks(head, from));
  }

  lemma ReadsInHead(s: string, head: string, at: nat, t: string)
    requires Continues(s, head) && at <= |head| && NoQuote(t)
    ensures Reads(s, at, t) <==> Reads(head, at, t)
  {
    if Reads(s, at, t) {
      forall p | at <= p < at + |t| ensures !IsQuote(s[p]) {
        assert s[at + (p - at)] == t[p - at] && t[p - at] in t;
      }
      assert at + |t| <= |head|;
    }
  }

  lemma StartInHead(s: string, head: string)
    requires Continues(s, head)
    ensures YamlValueStart(s) == YamlValueStart(head)
  {
    hide IsSpace, AfterSpaces, AfterBlanks, Reads;
    KeyInHead(s, head);
    var key := KeyStart(head);
    ReadsInHead(s, head, key, KEY);
    if Reads(head, key, KEY) {
      ReadsFits(head, key, KEY);
      BlanksInHead(s, head, key + 5);
    }
  }

  lemma KeyInHead(s: string, head: string)
    requires Continues(s, head)
    ensures KeyStart(s) == KeyStart(head)
  {
    hide IsSpace, AfterSpaces;
    SpacesInHead(s, head, 0);
    var i := AfterSpaces(head, 0);
    if i < |head| { SpacesInHead(s, head, i + 1); }
  }

  lemma YamlInHead(s: string, head: string, name: string)
    requires Continues(s, head) && IsName(name)
    ensures HasYamlName(s, name) <==> HeadHas(head, |head| < |s|, name)
  {
    hide IsSpace, AfterSpaces, AfterBlanks, Reads, YamlValueStart;
    StartInHead(s, head);
    var at := YamlValueStart(head);
    if at.Some? {
      ReadsInHead(s, head, at.value, name);
      if Reads(head, at.value, name) {
        ReadsFits(head, at.value, name);
        BlanksInHead(s, head, at.value + |name|);
      }
    }
  }

  lemma ReplaceInHead(head: string, tail: string, from: string, to: string)
    requires Continues(head + tail, head) && IsName(from)
    ensures ReplaceYamlName(head + tail, from, to) == ReplaceHead(head, tail != "", from, to) + tail
  {
    hide *;
    var s := head + tail;
    YamlInHead(s, head, from);
    StartInHead(s, head);
    if HeadHas(head, tail != "", from) {
      LineReplaced(s, from, to);
      ReplacedHead(head, tail != "", from, to);
      var at := YamlValueStart(head).value;
      SplicedBefore(head, tail, at, at + |from|, to);
    } else {
      LineKept(s, from, to);
      HeadKept(head, tail != "", from, to);
    }
  }

  lemma LineReplaced(s: string, from: string, to: string)
    requires HasYamlName(s, from)
    ensures YamlValueStart(s).Some? && YamlValueStart(s).value + |from| <= |s|
    ensures var at := YamlValueStart(s).value; ReplaceYamlName(s, from, to) == s[..at] + to + s[at + |from|..]
  {
  }

  lemma LineKept(s: string, from: string, to: string)
    requires !HasYamlName(s, from)
    ensures ReplaceYamlName(s, from, to) == s
  {
  }

  lemma HeadKept(head: string, more: bool, from: string, to: string)
    requires !HeadHas(head, more, from)
    ensures ReplaceHead(head, more, from, to) == head
  {
  }

  lemma SplicedBefore(head: string, tail: string, at: nat, end: nat, to: string)
    requires at <= end <= |head|
    ensures (head + tail)[..at] + to + (head + tail)[end..] == head[..at] + to + head[end..] + tail
  {
    assert (head + tail)[end..] == head[end..] + tail;
  }

  /** The value of a `name:` entry is one name. */
  lemma HeadHasOne(head: string, more: bool, a: string, b: string)
    requires HeadHas(head, more, a) && HeadHas(head, more, b) && IsName(a) && IsName(b)
    ensures a == b
  {
    var at := YamlValueStart(head).value;
    NotLonger(head, at, more, a, b);
    NotLonger(head, at, more, b, a);
    assert forall k :: 0 <= k < |a| ==> a[k] == head[at + k] == b[k];
  }

  lemma NotLonger(head: string, at: nat, more: bool, a: string, b: string)
    requires Reads(head, at, a) && Reads(head, at, b) && IsHeadSuffix(head, at + |a|, more) && IsName(b)
    ensures |b| <= |a|
  {
    var after := at + |a|;
    forall p | at <= p < at + |b| ensures !IsBlank(head[p]) && head[p] != '#' {
      assert head[at + (p - at)] == b[p - at] && b[p - at] in b;
    }
    assert after < |head| ==> IsBlank(head[after]) || head[after] == '#';
  }

  /** A new value begins where the old one did. */
  lemma StartKept(head: string, now: string, at: nat)
    requires YamlValueStart(head) == Some(at) && at < |now| && !IsBlank(now[at])
    requires forall k :: 0 <= k < at ==> now[k] == head[k]
    ensures YamlValueStart(now) == Some(at)
  {
    var key := KeyStart(head);
    KeyKept(head, now, at);
    AfterBlanksIs(now, key + 5, at);
  }

  lemma KeyKept(head: string, now: string, at: nat)
    requires YamlValueStart(head) == Some(at) && at <= |now|
    requires forall k :: 0 <= k < at ==> now[k] == head[k]
    ensures KeyStart(now) == KeyStart(head) && Reads(now, KeyStart(head), KEY)
  {
    var i, key := AfterSpaces(head, 0), KeyStart(head);
    assert i <= key && key + 5 < at;
    assert head[key + 0] == KEY[0] == 'n';
    hide IsSpace;
    AfterSpacesIs(now, 0, i);
    if head[i] == '-' { AfterSpacesIs(now, i + 1, key); }
  }

  lemma ReplacedHead(head: string, more: bool, from: string, to: string)
    requires HeadHas(head, more, from)
    ensures YamlValueStart(head).Some?
    ensures var at := YamlValueStart(head).value;
            && at + |from| <= |head| && Reads(head, at, from) && IsHeadSuffix(head, at + |from|, more)
            && ReplaceHead(head, more, from, to) == head[..at] + to + head[at + |from|..]
  {
  }

  lemma HeadReplaced(head: string, more: bool, from: string, to: string)
    requires HeadHas(head, more, from) && IsName(to)
    ensures HeadHas(ReplaceHead(head, more, from, to), more, to)
    ensures YamlValueStart(ReplaceHead(head, more, from, to)) == YamlValueStart(head)
    ensures NoQuote(head) ==> NoQuote(ReplaceHead(head, more, from, to))
  {
    hide ReplaceHead, YamlValueStart, IsHeadSuffix, Reads, NoQuote, IsName;
    ReplacedHead(head, more, from, to);
    var at := YamlValueStart(head).value;
    var now := ReplaceHead(head, more, from, to);
    ValueSpliced(head, at, from, to);
    StartKept(head, now, at);
    SuffixKept(head, now, at + |from|, at + |to|, more);
  }

  lemma HeadRestored(head: string, more: bool, from: string, to: string)
    requires HeadHas(head, more, from) && IsName(to)
    ensures ReplaceHead(ReplaceHead(head, more, from, to), more, to, from) == head
  {
    hide ReplaceHead, YamlValueStart, IsHeadSuffix, Reads, HeadHas;
    ReplacedHead(head, more, from, to);
    HeadReplaced(head, more, from, to);
    var now := ReplaceHead(head, more, from, to);
    ReplacedHead(now, more, to, from);
    ValueSpliced(head, YamlValueStart(head).value, from, to);
  }

  /** One name put in the place of another, and back. */
  lemma ValueSpliced(head: string, at: nat, from: string, to: string)
    requires Reads(head, at, from) && IsName(to)
    ensures var now := head[..at] + to + head[at + |from|..];
            && (forall k :: 0 <= k < at ==> now[k] == head[k]) && at < |now| && !IsBlank(now[at])
            && Reads(now, at, to) && now[at + |to|..] == head[at + |from|..]
            && now[..at] + from + now[at + |to|..] == head
            && (NoQuote(head) ==> NoQuote(now))
  {
    var now := head[..at] + to + head[at + |from|..];
    assert to[0] in to && now[at] == to[0];
    assert now[at + |to|..] == head[at + |from|..] && now[..at] == head[..at];
    assert head[at..at + |from|] == from;
    assert head == head[..at] + head[at..at + |from|] + head[at + |from|..];
  }

  lemma SuffixKept(head: string, now: string, at: nat, at': nat, more: bool)
    requires at <= |head| && at' <= |now| && now[at'..] == head[at..] && IsHeadSuffix(head, at, more)
    ensures IsHeadSuffix(now, at', more)
  {
    assert forall k :: 0 <= k < |head| - at ==> now[at'..][k] == head[at..][k];
    assert forall k :: at' <= k < |now| ==> now[k] == head[k - at' + at];
    AfterBlanksIs(now, at', AfterBlanks(head, at) - at + at');
  }

  function HeadAll(head: string, more: bool, all: seq<Pattern>): string
    decreases |all|
  {
    if all == [] then head else HeadAll(ReplaceHead(head, more, all[0].from, all[0].to), more, all[1..])
  }

  ghost predicate HeadRenames(head: string, more: bool, all: seq<Pattern>, k: nat) {
    k < |all| && HeadHas(head, more, all[k].from)
  }

  /** All patterns together on the text before the first quote. */
  lemma {:induction false} HeadAllIs(head: string, more: bool, all: seq<Pattern>)
    requires Separate(all)
    ensures forall k: nat :: HeadRenames(head, more, all, k) ==>
        HeadAll(head, more, all) == ReplaceHead(head, more, all[k].from, all[k].to)
    ensures (forall k: nat :: !HeadRenames(head, more, all, k)) ==> HeadAll(head, more, all) == head
    decreases |all|
  {
    hide HeadHas, Separate;
    if all != [] {
      var first := all[0];
      var next := ReplaceHead(head, more, first.from, first.to);
      SeparateRest(all);
      HeadAllIs(next, more, all[1..]);
      forall k: nat | k + 1 < |all|
        ensures HeadRenames(next, more, all[1..], k) <==>
            HeadRenames(head, more, all, k + 1) && !HeadRenames(head, more, all, 0)
      {
        HeadStep(head, more, all, k + 1);
      }
      if HeadRenames(head, more, all, 0) {
        assert forall k: nat :: !HeadRenames(next, more, all[1..], k);
        forall k: nat | HeadRenames(head, more, all, k) ensures k == 0 { HeadRenamesOnce(head, more, all, k, 0); }
      } else {
        assert next == head;
        forall k: nat | HeadRenames(head, more, all, k)
          ensures k > 0 && all[1..][k - 1] == all[k] && HeadRenames(next, more, all[1..], k - 1)
        {
        }
        forall k: nat | HeadRenames(next, more, all[1..], k) ensures HeadRenames(head, more, all, k + 1) {}
      }
    }
  }

  lemma HeadRenamesOnce(head: string, more: bool, all: seq<Pattern>, k: nat, l: nat)
    requires Separate(all) && HeadRenames(head, more, all, k) && HeadRenames(head, more, all, l)
    ensures k == l
  {
    HeadHasOne(head, more, all[k].from, all[l].from);
    if k != l { FromApart(all, k, l); }
  }

  lemma HeadStep(head: string, more: bool, all: seq<Pattern>, k: nat)
    requires Separate(all) && 0 < k < |all|
    ensures var next := ReplaceHead(head, more, all[0].from, all[0].to);
            HeadHas(next, more, all[k].from) <==> HeadHas(head, more, all[k].from) && !HeadHas(head, more, all[0].from)
  {
    if HeadHas(head, more, all[0].from) {
      HeadReplaced(head, more, all[0].from, all[0].to);
      var next := ReplaceHead(head, more, all[0].from, all[0].to);
      if HeadHas(next, more, all[k].from) {
        HeadHasOne(next, more, all[0].to, all[k].from);
        FromToApart(all, k, 0);
      }
    }
  }

  lemma FromToApart(all: seq<Pattern>, k: nat, l: nat)
    requires Separate(all) && k < |all| && l < |all|
    ensures Unrelated(all[k].from, all[l].to) && all[k].from != all[l].to
  {
    assert Unrelated(all[k].from, all[l].to);
    SelfRelated(all[k].from);
  }
}
