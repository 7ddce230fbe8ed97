/** Whitespace, as JavaScript regular expressions and `trim` see it, and text at a position. */
module Text {

  /** What `\s` matches (sections 12.2 and 12.3 of ECMA-262). */
  predicate IsSpace(c: char) {
    || '\t' <= c <= '\r' || c == ' ' || c == '\U{00A0}' || c == '\U{1680}' || '\U{2000}' <= c <= '\U{200A}'
    || c == '\U{2028}' || c == '\U{2029}' || c == '\U{202F}' || c == '\U{205F}' || c == '\U{3000}' || c == '\U{FEFF}'
  }

  ghost predicate AllSpaces(s: string) {
    forall k :: 0 <= k < |s| ==> IsSpace(s[k])
  }

  /** The first position from `from` on that holds no space. */
  function AfterSpaces(s: string, from: nat): (at: nat)
    requires from <= |s|
    ensures from <= at <= |s| && (at < |s| ==> !IsSpace(s[at]))
    ensures forall k :: from <= k < at ==> IsSpace(s[k])
    decreases |s| - from
  {
    if from == |s| || !IsSpace(s[from]) then from else AfterSpaces(s, from + 1)
  }

  lemma AfterSpacesIs(s: string, from: nat, at: nat)
    requires from <= at <= |s| && (forall k :: from <= k < at ==> IsSpace(s[k])) && (at < |s| ==> !IsSpace(s[at]))
    ensures AfterSpaces(s, from) == at
  {
    hide IsSpace;
  }

  /** `t` is written from `at` on. */
  predicate Reads(s: string, at: nat, t: string) {
    at + |t| <= |s| && forall k :: 0 <= k < |t| ==> s[at + k] == t[k]
  }

  lemma ReadsFits(s: string, at: nat, t: string)
    requires Reads(s, at, t)
    ensures at + |t| <= |s|
  {
  }

  /** What `\w` matches in a regular expression. */
  predicate IsWordChar(c: char) {
    'A' <= c <= 'Z' || 'a' <= c <= 'z' || '0' <= c <= '9' || c == '_'
  }

  /** The parts between the occurrences of a character, at least one. */
  function Split(s: string, c: char): (parts: seq<string>)
    ensures parts != [] && forall k :: 0 <= k < |parts| ==> c !in parts[k]
  {
    if s == "" then [""]
    else
      var rest := Split(s[1..], c);
      if s[0] == c then [""] + rest else [[s[0]] + rest[0]] + rest[1..]
  }

  function Join(parts: seq<string>, separator: string): string {
    if parts == [] then ""
    else if |parts| == 1 then parts[0]
    else parts[0] + separator + Join(parts[1..], separator)
  }

  lemma {:induction false} SplitJoins(s: string, c: char)
    ensures Join(Split(s, c), [c]) == s
  {
    if s != "" {
      SplitJoins(s[1..], c);
      var rest := Split(s[1..], c);
      assert s == [s[0]] + s[1..];
      if s[0] == c {
        assert ([""] + rest)[1..] == rest;
      } else {
        assert ([[s[0]] + rest[0]] + rest[1..])[1..] == rest[1..];
      }
    }
  }

  lemma {:induction false} JoinBoth(a: seq<string>, b: seq<string>, separator: string)
    requires a != [] && b != []
    ensures Join(a + b, separator) == Join(a, separator) + separator + Join(b, separator)
  {
    if |a| == 1 {
      assert (a + b)[1..] == b;
    } else {
      JoinBoth(a[1..], b, separator);
      assert (a + b)[1..] == a[1..] + b;
      Regrouped(a[0] + separator, Join(a[1..], separator), separator, Join(b, separator));
    }
  }

  lemma Regrouped(a: string, b: string, c: string, d: string)
    ensures a + (b + c + d) == a + b + c + d
  {
  }

  lemma {:induction false} SplitBoth(a: string, c: char, b: string)
    ensures Split(a + [c] + b, c) == Split(a, c) + Split(b, c)
  {
    if a == "" {
      assert a + [c] + b == [c] + b && ([c] + b)[1..] == b;
    } else {
      SplitBoth(a[1..], c, b);
      var s := a + [c] + b;
      assert s[1..] == a[1..] + [c] + b && s[0] == a[0];
      FirstJoins(a[0], Split(a[1..], c), Split(b, c));
    }
  }

  lemma FirstJoins(x: char, parts: seq<string>, more: seq<string>)
    requires parts != []
    ensures [""] + (parts + more) == [""] + parts + more
    ensures [[x] + (parts + more)[0]] + (parts + more)[1..] == [[x] + parts[0]] + parts[1..] + more
  {
  }
}
