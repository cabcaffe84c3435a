/**
 * The keyword regular expression of the content script. A keyword is escaped
 * with `replace(/[.*+?^${}()|[\]\\]/g, '\\$&')` and wrapped as `\b<escaped>\b`.
 * The patterns built this way use only two regular-expression features: the
 * assertion \b and literal characters (plain or escaped). This module parses
 * that fragment, gives it the JavaScript matching semantics, and proves that
 * the pattern built from a keyword finds exactly the whole-word occurrences of
 * the keyword.
 */
module Regex {
  import opened Wrappers
  import opened Text

  /** The characters the escaping replaces with a backslash and themselves. */
  predicate IsMeta(c: char) {
    c == '.' || c == '*' || c == '+' || c == '?' || c == '^' || c == '$' || c == '{' || c == '}'
    || c == '(' || c == ')' || c == '|' || c == '[' || c == ']' || c == '\\'
  }

  /** `'\\$&'` for one character: a metacharacter gets a backslash. */
  function EscapeChar(c: char): string {
    if IsMeta(c) then ['\\', c] else [c]
  }

  /** Prefixes every metacharacter of s with a backslash. */
  function Escape(s: string): (r: string)
    ensures |s| <= |r| <= 2 * |s|
  {
    if s == [] then [] else EscapeChar(s[0]) + Escape(s[1..])
  }

  /** `\b${escaped}\b` */
  function KeywordPattern(keyword: string): string {
    "\\b" + Escape(keyword) + "\\b"
  }

  /** The pattern elements of the fragment. */
  datatype Token = WordBoundary | Literal(c: char)

  /** Reads a pattern of the fragment: `\b`, an escaped metacharacter, or a
      character that is not a metacharacter. Anything else (other escapes, an
      unescaped operator) is outside the fragment and gives None. */
  function Parse(p: string): Option<seq<Token>>
    decreases |p|
  {
    if p == [] then Some([])
    else if p[0] == '\\' then
      if |p| < 2 then None
      else if p[1] == 'b' then Prepend(WordBoundary, Parse(p[2..]))
      else if IsMeta(p[1]) then Prepend(Literal(p[1]), Parse(p[2..]))
      else None
    else if IsMeta(p[0]) then None
    else Prepend(Literal(p[0]), Parse(p[1..]))
  }

  function Prepend(t: Token, r: Option<seq<Token>>): Option<seq<Token>> {
    if r.Some? then Some([t] + r.value) else None
  }

  /** The tokens that match s literally. */
  function Literals(s: string): (ts: seq<Token>)
    ensures |ts| == |s|
  {
    if s == [] then [] else [Literal(s[0])] + Literals(s[1..])
  }

  /** Escaping makes every character of the keyword a literal: parsing the
      escaped text followed by more pattern reads the keyword's characters
      one by one, then the rest. */
  lemma {:induction false} ParseEscaped(s: string, rest: string)
    ensures Parse(Escape(s) + rest) ==
      if Parse(rest).Some? then Some(Literals(s) + Parse(rest).value) else None
  {
    if s == [] {
      assert Escape(s) + rest == rest;
      if Parse(rest).Some? {
        assert Literals(s) + Parse(rest).value == Parse(rest).value;
      }
    } else {
      var tail := Escape(s[1..]) + rest;
      assert Escape(s) + rest == EscapeChar(s[0]) + tail;
      ParseEscapedChar(s[0], tail);
      ParseEscaped(s[1..], rest);
      if Parse(rest).Some? {
        TokensAssoc([Literal(s[0])], Literals(s[1..]), Parse(rest).value);
      }
    }
  }

  lemma TokensAssoc(a: seq<Token>, b: seq<Token>, c: seq<Token>)
    ensures a + (b + c) == (a + b) + c
  {
  }

  /** One escaped character reads as one literal. */
  lemma ParseEscapedChar(c: char, tail: string)
    ensures Parse(EscapeChar(c) + tail) == Prepend(Literal(c), Parse(tail))
  {
    var p := EscapeChar(c) + tail;
    if IsMeta(c) {
      assert p[0] == '\\' && p[1] == c && p[2..] == tail;
    } else {
      assert p[0] == c && p[1..] == tail;
    }
  }

  /** The keyword pattern reads as a boundary, the keyword's characters as
      literals, and a boundary. */
  lemma KeywordPatternParses(keyword: string)
    ensures Parse(KeywordPattern(keyword)) ==
      Some([WordBoundary] + Literals(keyword) + [WordBoundary])
  {
    var tail: string := "\\b";
    assert |tail| == 2 && tail[0] == '\\' && tail[1] == 'b';
    assert Parse(tail) == Some([WordBoundary]) by {
      assert tail[2..] == [];
      assert Parse([]) == Some([]);
      assert Parse(tail) == Prepend(WordBoundary, Parse(tail[2..]));
      assert [WordBoundary] + [] == [WordBoundary];
    }
    ParseEscaped(keyword, tail);
    var p := KeywordPattern(keyword);
    assert p == tail + (Escape(keyword) + tail);
    assert p[0] == '\\' && p[1] == 'b';
    assert p[2..] == Escape(keyword) + tail;
    assert Parse(p) == Prepend(WordBoundary, Parse(p[2..]));
    assert [WordBoundary] + (Literals(keyword) + [WordBoundary])
      == [WordBoundary] + Literals(keyword) + [WordBoundary];
  }

  /** \b holds at position i of t when exactly one of the characters on its
      two sides is a word character. */
  predicate AtBoundary(t: string, i: int)
    requires 0 <= i <= |t|
  {
    (i > 0 && IsWordChar(t[i - 1])) != (i < |t| && IsWordChar(t[i]))
  }

  /** At the ends of the text, \b holds exactly next to a word character, so
      an empty text has no word boundary at all. */
  lemma BoundaryAtTextEdges(t: string)
    ensures AtBoundary(t, 0) <==> |t| > 0 && IsWordChar(t[0])
    ensures AtBoundary(t, |t|) <==> |t| > 0 && IsWordChar(t[|t| - 1])
  {
  }

  /** The tokens match t starting at position i. */
  predicate MatchAt(ts: seq<Token>, t: string, i: int)
    requires 0 <= i <= |t|
    decreases |ts|
  {
    if ts == [] then true
    else match ts[0]
      case WordBoundary => AtBoundary(t, i) && MatchAt(ts[1..], t, i)
      case Literal(c) => i < |t| && t[i] == c && MatchAt(ts[1..], t, i + 1)
  }

  /** RegExp.prototype.test for a pattern without the g flag: tries every
      start position from `from` on. */
  function Search(ts: seq<Token>, t: string, from: nat): bool
    requires from <= |t|
    decreases |t| - from
  {
    MatchAt(ts, t, from) || (from < |t| && Search(ts, t, from + 1))
  }

  /** The search succeeds exactly when some start position matches. */
  lemma {:induction false} SearchFinds(ts: seq<Token>, t: string, from: nat)
    requires from <= |t|
    ensures Search(ts, t, from) <==> exists i :: from <= i <= |t| && MatchAt(ts, t, i)
    decreases |t| - from
  {
    if MatchAt(ts, t, from) {
      assert Search(ts, t, from);
      assert from <= from <= |t| && MatchAt(ts, t, from);
      assert exists i :: from <= i <= |t| && MatchAt(ts, t, i);
    } else if from < |t| {
      SearchFinds(ts, t, from + 1);
      assert forall i :: from <= i <= |t| && MatchAt(ts, t, i) ==> from + 1 <= i;
    } else {
      assert !Search(ts, t, from);
    }
  }

  /** `new RegExp(pattern).test(t)` for a pattern of the fragment. */
  function Test(pattern: string, t: string): bool {
    var ts := Parse(pattern);
    ts.Some? && Search(ts.value, t, 0)
  }

  /** The keyword k occurs in t at position p as a whole word: the characters
      match, and \b holds on both sides. */
  predicate WholeWordAt(k: string, t: string, p: int) {
    0 <= p && p + |k| <= |t| && t[p..p + |k|] == k && AtBoundary(t, p) && AtBoundary(t, p + |k|)
  }

  /** A literal in front matches one character, then the rest matches. */
  lemma MatchLiteralHead(c: char, rest: seq<Token>, t: string, i: int)
    requires 0 <= i <= |t|
    ensures MatchAt([Literal(c)] + rest, t, i) <==> i < |t| && t[i] == c && MatchAt(rest, t, i + 1)
  {
    assert ([Literal(c)] + rest)[1..] == rest;
  }

  /** Literal tokens match exactly the same characters in the text. */
  lemma {:induction false} MatchLiterals(s: string, rest: seq<Token>, t: string, i: int)
    requires 0 <= i <= |t|
    ensures MatchAt(Literals(s) + rest, t, i) <==>
      i + |s| <= |t| && t[i..i + |s|] == s && MatchAt(rest, t, i + |s|)
  {
    if s == [] {
      assert Literals(s) + rest == rest;
      assert t[i..i] == s;
    } else {
      var tail := Literals(s[1..]) + rest;
      TokensAssoc([Literal(s[0])], Literals(s[1..]), rest);
      MatchLiteralHead(s[0], tail, t, i);
      if i < |t| && t[i] == s[0] {
        MatchLiterals(s[1..], rest, t, i + 1);
      }
      if i + |s| <= |t| {
        SliceStartsWith(t, i, |s|, s);
      }
    }
  }

  /** A window of t equals a non-empty s iff their first characters agree and
      the windows after them do. */
  lemma SliceStartsWith(t: string, i: int, n: int, s: string)
    requires 0 <= i && 0 < n && i + n <= |t| && |s| == n
    ensures t[i..i + n] == s <==> t[i] == s[0] && t[i + 1..i + n] == s[1..]
  {
    assert t[i..i + n] == [t[i]] + t[i + 1..i + n];
    assert s == [s[0]] + s[1..];
  }

  /** The pattern built from a keyword matches at p exactly when the keyword
      occurs at p as a whole word. */
  lemma KeywordMatchAt(k: string, t: string, p: int)
    requires 0 <= p <= |t|
    ensures MatchAt([WordBoundary] + Literals(k) + [WordBoundary], t, p) <==> WholeWordAt(k, t, p)
  {
    var ts := [WordBoundary] + Literals(k) + [WordBoundary];
    assert ts[1..] == Literals(k) + [WordBoundary];
    MatchLiterals(k, [WordBoundary], t, p);
    if p + |k| <= |t| {
      assert [WordBoundary][1..] == [];
    }
  }

  /** Escaping makes the keyword a literal: the regular expression built from
      k finds a match in t exactly when k occurs in t as a whole word. */
  lemma KeywordTestIsWholeWord(k: string, t: string)
    ensures Test(KeywordPattern(k), t) <==> exists p :: WholeWordAt(k, t, p)
  {
    KeywordPatternParses(k);
    var ts := [WordBoundary] + Literals(k) + [WordBoundary];
    if exists p :: WholeWordAt(k, t, p) {
      var p :| WholeWordAt(k, t, p);
      KeywordMatchAt(k, t, p);
    }
    SearchFinds(ts, t, 0);
    if Search(ts, t, 0) {
      var p :| 0 <= p <= |t| && MatchAt(ts, t, p);
      KeywordMatchAt(k, t, p);
    }
  }
}
