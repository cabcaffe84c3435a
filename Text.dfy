/**
 * The string primitives the extension relies on: String.prototype.trim,
 * split(','), startsWith/endsWith, toLowerCase (as an ASCII case fold) and the
 * word characters behind the regular-expression assertion \b.
 */
module Text {

  /** The characters String.prototype.trim removes: the ECMAScript WhiteSpace
      (tab, vertical tab, form feed, space, no-break space, byte order mark and
      every space separator) and LineTerminator code points. */
  predicate IsWhitespace(c: char) {
    var n := c as int;
    (0x9 <= n <= 0xD) || n == 0x20 || n == 0xA0 || n == 0x1680 || (0x2000 <= n <= 0x200A)
    || n == 0x2028 || n == 0x2029 || n == 0x202F || n == 0x205F || n == 0x3000 || n == 0xFEFF
  }


  /** The position of the first character at or after i that is not
      whitespace (|s| if there is none). */
  function SkipForward(s: string, i: nat): (k: nat)
    requires i <= |s|
    ensures i <= k <= |s|
    ensures k == |s| || !IsWhitespace(s[k])
    ensures forall j :: i <= j < k ==> IsWhitespace(s[j])
    decreases |s| - i
  {
    if i < |s| && IsWhitespace(s[i]) then SkipForward(s, i + 1) else i
  }

  /** The position just after the last character before j that is not
      whitespace, looking no further back than lo (lo if there is none). */
  function SkipBackward(s: string, lo: nat, j: nat): (k: nat)
    requires lo <= j <= |s|
    ensures lo <= k <= j
    ensures k == lo || !IsWhitespace(s[k - 1])
    ensures forall i :: k <= i < j ==> IsWhitespace(s[i])
    decreases j - lo
  {
    if lo < j && IsWhitespace(s[j - 1]) then SkipBackward(s, lo, j - 1) else j
  }

  /** Where the trimmed text starts. */
  function TrimStartIndex(s: string): nat
    ensures TrimStartIndex(s) <= |s|
  {
    SkipForward(s, 0)
  }

  /** Where the trimmed text ends. */
  function TrimEndIndex(s: string): nat
    ensures TrimStartIndex(s) <= TrimEndIndex(s) <= |s|
  {
    SkipBackward(s, TrimStartIndex(s), |s|)
  }

  /** String.prototype.trim: the slice of s between the leading and the
      trailing whitespace. It has no whitespace at either end, and every
      character of s outside it is whitespace. */
  function Trim(s: string): (r: string)
    ensures |r| <= |s|
    ensures r == s[TrimStartIndex(s)..TrimEndIndex(s)]
    ensures r == [] || (!IsWhitespace(r[0]) && !IsWhitespace(r[|r| - 1]))
    ensures forall i :: 0 <= i < TrimStartIndex(s) ==> IsWhitespace(s[i])
    ensures forall i :: TrimEndIndex(s) <= i < |s| ==> IsWhitespace(s[i])
  {
    s[TrimStartIndex(s)..TrimEndIndex(s)]
  }

  /** Trimming leaves nothing exactly when the string is blank. */
  lemma TrimEmptyIffBlank(s: string)
    ensures Trim(s) == [] <==> forall i :: 0 <= i < |s| ==> IsWhitespace(s[i])
  {
    if forall i :: 0 <= i < |s| ==> IsWhitespace(s[i]) {
      assert TrimStartIndex(s) == |s|;
    }
  }

  /** A string with no whitespace at either end is its own trim. */
  lemma TrimOfTrimmed(s: string)
    requires s == [] || (!IsWhitespace(s[0]) && !IsWhitespace(s[|s| - 1]))
    ensures Trim(s) == s
  {
  }

  lemma TrimIdempotent(s: string)
    ensures Trim(Trim(s)) == Trim(s)
  {
    TrimOfTrimmed(Trim(s));
  }

  /** Trimming never introduces a character: what is left is a piece of s. */
  lemma TrimKeepsOnlyCharsOf(s: string, c: char)
    requires c !in s
    ensures c !in Trim(s)
  {
  }

  /** String.prototype.split with a one-character separator: the pieces
      between separators, empty pieces included. */
  function Split(s: string, sep: char): (parts: seq<string>)
    ensures |parts| >= 1
    ensures forall i :: 0 <= i < |parts| ==> sep !in parts[i]
    ensures Join(parts, sep) == s
  {
    if s == [] then [[]]
    else
      var rest := Split(s[1..], sep);
      if s[0] == sep then
        [[]] + rest
      else
        var parts := [[s[0]] + rest[0]] + rest[1..];
        assert parts[1..] == rest[1..];
        assert Join(parts, sep) == [s[0]] + Join(rest, sep);
        parts
  }

  /** Array.prototype.join with a one-character separator. */
  function Join(parts: seq<string>, sep: char): string
    requires |parts| >= 1
  {
    if |parts| == 1 then parts[0] else parts[0] + [sep] + Join(parts[1..], sep)
  }

  /** Splitting undoes joining, for pieces that do not contain the separator. */
  lemma {:induction false} SplitJoin(parts: seq<string>, sep: char)
    requires |parts| >= 1
    requires forall i :: 0 <= i < |parts| ==> sep !in parts[i]
    ensures Split(Join(parts, sep), sep) == parts
  {
    if |parts| == 1 {
      NoSeparatorSplit(parts[0], sep);
    } else {
      SplitJoin(parts[1..], sep);
      SplitAfterSeparator(parts[0], sep, Join(parts[1..], sep));
      assert parts == [parts[0]] + parts[1..];
    }
  }

  /** A string without the separator splits into itself alone. */
  lemma {:induction false} NoSeparatorSplit(s: string, sep: char)
    requires sep !in s
    ensures Split(s, sep) == [s]
  {
    if s != [] {
      NoSeparatorSplit(s[1..], sep);
      assert [s[0]] + s[1..] == s;
    }
  }

  lemma {:induction false} SplitAfterSeparator(head: string, sep: char, tail: string)
    requires sep !in head
    ensures Split(head + [sep] + tail, sep) == [head] + Split(tail, sep)
  {
    if head == [] {
      assert head + [sep] + tail == [sep] + tail;
      assert ([sep] + tail)[1..] == tail;
    } else {
      var s := head + [sep] + tail;
      assert s[1..] == head[1..] + [sep] + tail;
      SplitAfterSeparator(head[1..], sep, tail);
      assert [head[0]] + head[1..] == head;
    }
  }

  predicate StartsWith(s: string, prefix: string) {
    |prefix| <= |s| && s[..|prefix|] == prefix
  }

  predicate EndsWith(s: string, suffix: string) {
    |suffix| <= |s| && s[|s| - |suffix|..] == suffix
  }

  /** toLowerCase restricted to ASCII letters. */
  function LowerChar(c: char): (d: char)
    ensures !('A' <= d <= 'Z')
    ensures c != d ==> 'A' <= c <= 'Z' && d as int == c as int + 32
  {
    if 'A' <= c <= 'Z' then (c as int + 32) as char else c
  }

  /** toLowerCase: every character folded by LowerChar, so none is an
      uppercase ASCII letter afterwards. */
  function Lower(s: string): (r: string)
    ensures |r| == |s|
    ensures forall i {:trigger r[i]} :: 0 <= i < |s| ==> r[i] == LowerChar(s[i])
    ensures forall i :: 0 <= i < |r| ==> !('A' <= r[i] <= 'Z')
  {
    seq(|s|, i requires 0 <= i < |s| => LowerChar(s[i]))
  }

  /** Text without uppercase letters is its own lowercase form. */
  lemma LowerOfLowercase(s: string)
    requires forall i :: 0 <= i < |s| ==> !('A' <= s[i] <= 'Z')
    ensures Lower(s) == s
  {
  }

  /** Lowering twice is lowering once. */
  lemma LowerIdempotent(s: string)
    ensures Lower(Lower(s)) == Lower(s)
  {
  }

  /** The characters \w matches in a JavaScript regular expression without
      the u flag: ASCII letters, digits and underscore. */
  predicate IsWordChar(c: char) {
    ('a' <= c <= 'z') || ('A' <= c <= 'Z') || ('0' <= c <= '9') || c == '_'
  }

  /** Case folding keeps whitespace and non-whitespace apart. */
  lemma LowerKeepsWhitespace(s: string)
    ensures forall i :: 0 <= i < |s| ==> IsWhitespace(Lower(s)[i]) == IsWhitespace(s[i])
  {
  }
}
