/** The usual Option datatype. */
module Wrappers {
  datatype Option<+T> = None | Some(value: T) {
    function GetOr(default: T): T {
      match this
      case Some(v) => v
      case None => default
    }
  }
}

/** String helpers the crawler borrows from Python: str.strip, str.casefold,
    str.startswith, the `in` substring test, and the code-point ordering of
    str comparison (used when JSON keys are sorted). */
module Text {

  /** The characters Python's str.isspace() accepts (and str.strip() removes). */
  predicate IsSpace(c: char) {
    c == ' ' || ('\t' <= c <= '\r') || ('\U{1c}' <= c <= '\U{1f}')
    || c == '\U{85}' || c == '\U{a0}' || c == '\U{1680}'
    || ('\U{2000}' <= c <= '\U{200a}') || c == '\U{2028}' || c == '\U{2029}'
    || c == '\U{202f}' || c == '\U{205f}' || c == '\U{3000}'
  }

  /** Drops the longest prefix whose characters all satisfy `drop`. */
  function DropWhile(s: string, drop: char -> bool): (r: string)
    ensures |r| <= |s| && r == s[|s| - |r|..]
  {
    if s == [] || !drop(s[0]) then s else DropWhile(s[1..], drop)
  }

  /** Drops the longest suffix whose characters all satisfy `drop`. */
  function DropWhileEnd(s: string, drop: char -> bool): (r: string)
    ensures |r| <= |s| && r == s[..|r|]
  {
    if s == [] || !drop(s[|s| - 1]) then s else DropWhileEnd(s[..|s| - 1], drop)
  }

  /** What DropWhile removes is dropped, and what it keeps starts with a
      kept character. */
  lemma {:induction false} DropWhileMaximal(s: string, drop: char -> bool)
    ensures var r := DropWhile(s, drop);
            && (r == [] || !drop(r[0]))
            && forall i :: 0 <= i < |s| - |r| ==> drop(s[i])
  {
    if s != [] && drop(s[0]) {
      DropWhileMaximal(s[1..], drop);
      var r := DropWhile(s, drop);
      forall i | 1 <= i < |s| - |r| ensures drop(s[i]) {
        assert s[i] == s[1..][i - 1];
      }
    }
  }

  /** What DropWhileEnd removes is dropped, and what it keeps ends with a
      kept character. */
  lemma {:induction false} DropWhileEndMaximal(s: string, drop: char -> bool)
    ensures var r := DropWhileEnd(s, drop);
            && (r == [] || !drop(r[|r| - 1]))
            && forall i :: |r| <= i < |s| ==> drop(s[i])
  {
    if s != [] && drop(s[|s| - 1]) {
      DropWhileEndMaximal(s[..|s| - 1], drop);
      var r := DropWhileEnd(s, drop);
      forall i | |r| <= i < |s| - 1 ensures drop(s[i]) {
        assert s[i] == s[..|s| - 1][i];
      }
    }
  }

  /** Python's s.strip(chars): removes leading and trailing characters in the
      set described by `drop`. */
  function StripBy(s: string, drop: char -> bool): string {
    DropWhileEnd(DropWhile(s, drop), drop)
  }

  /** The stripped text is the slice of s that starts after the dropped
      prefix, and everything after it is dropped. */
  lemma StripBySlice(s: string, drop: char -> bool)
    ensures var i := |s| - |DropWhile(s, drop)|;
            var j := i + |StripBy(s, drop)|;
            && 0 <= i <= j <= |s| && StripBy(s, drop) == s[i..j]
            && (forall k :: 0 <= k < i ==> drop(s[k]))
            && (forall k :: j <= k < |s| ==> drop(s[k]))
  {
    var left := DropWhile(s, drop);
    var i := |s| - |left|;
    var j := i + |StripBy(s, drop)|;
    DropWhileMaximal(s, drop);
    DropWhileEndMaximal(left, drop);
    forall k | j <= k < |s| ensures drop(s[k]) {
      assert s[k] == left[k - i];
    }
  }

  /** The stripped text begins and ends with kept characters. */
  lemma StripByEndsKept(s: string, drop: char -> bool)
    ensures var r := StripBy(s, drop); r == [] || (!drop(r[0]) && !drop(r[|r| - 1]))
  {
    var left := DropWhile(s, drop);
    DropWhileMaximal(s, drop);
    DropWhileEndMaximal(left, drop);
    var r := StripBy(s, drop);
    assert r != [] ==> r[0] == left[0];
  }

  /** The stripped text is a slice s[i..j] whose end characters are kept and
      outside of which every character is dropped. */
  lemma StripByIsMaximalSlice(s: string, drop: char -> bool)
    ensures exists i, j ::
              (&& 0 <= i <= j <= |s| && StripBy(s, drop) == s[i..j]
               && (forall k :: 0 <= k < i ==> drop(s[k]))
               && (forall k :: j <= k < |s| ==> drop(s[k])))
    ensures var r := StripBy(s, drop); r == [] || (!drop(r[0]) && !drop(r[|r| - 1]))
  {
    StripBySlice(s, drop);
    StripByEndsKept(s, drop);
    var i := |s| - |DropWhile(s, drop)|;
    var j := i + |StripBy(s, drop)|;
    assert 0 <= i <= j <= |s| && StripBy(s, drop) == s[i..j];
  }

  /** Python's s.strip() with no argument. */
  function Strip(s: string): string {
    StripBy(s, IsSpace)
  }

  /** Python's s.rstrip("/"). */
  function RStripSlash(s: string): string {
    DropWhileEnd(s, c => c == '/')
  }

  predicate StartsWith(s: string, prefix: string) {
    |prefix| <= |s| && s[..|prefix|] == prefix
  }

  /** Python's `sub in s`: some suffix of s starts with sub. */
  predicate Contains(s: string, sub: string) {
    StartsWith(s, sub) || (s != [] && Contains(s[1..], sub))
  }

  /** str.casefold() on one character, for ASCII, Latin-1 and Latin
      Extended-A (the letters Hungarian text uses); other characters are
      returned unchanged. */
  function FoldChar(c: char): string {
    if 'A' <= c <= 'Z' then [(c as int + 32) as char]
    else if '\U{c0}' <= c <= '\U{de}' && c != '\U{d7}' then [(c as int + 32) as char]
    else if c == '\U{df}' then "ss"
    else if c == '\U{b5}' then "\U{3bc}"
    else if c == '\U{130}' then "i\U{307}"
    else if c == '\U{149}' then "\U{2bc}n"
    else if c == '\U{178}' then "\U{ff}"
    else if c == '\U{17f}' then "s"
    else if (('\U{100}' <= c <= '\U{12f}') || ('\U{132}' <= c <= '\U{137}') || ('\U{14a}' <= c <= '\U{177}'))
            && (c as int) % 2 == 0 then [(c as int + 1) as char]
    else if (('\U{139}' <= c <= '\U{148}') || ('\U{179}' <= c <= '\U{17e}'))
            && (c as int) % 2 == 1 then [(c as int + 1) as char]
    else [c]
  }

  /** Python's str.casefold(). */
  function CaseFold(s: string): string {
    if s == [] then [] else FoldChar(s[0]) + CaseFold(s[1..])
  }

  /** A character that casefold leaves as it is: not an upper-case letter of
      the ranges FoldChar knows. */
  predicate Folded(c: char) {
    FoldChar(c) == [c]
  }

  /** Text that is already lower-case (every marker vocabulary in the
      crawler) is unchanged by CaseFold, so matching a casefolded column name
      against a marker is a case-insensitive match. */
  lemma {:induction false} CaseFoldKeepsFolded(s: string)
    requires forall i :: 0 <= i < |s| ==> Folded(s[i])
    ensures CaseFold(s) == s
  {
    if s != [] {
      CaseFoldKeepsFolded(s[1..]);
      assert s == [s[0]] + s[1..];
    }
  }

  /** Python's `<` on str: lexicographic by code point, a proper prefix first. */
  predicate LexLess(a: string, b: string) {
    |b| > 0 && (|a| == 0 || a[0] < b[0] || (a[0] == b[0] && LexLess(a[1..], b[1..])))
  }

  lemma {:induction false} LexLessIrreflexive(a: string)
    ensures !LexLess(a, a)
  {
    if |a| > 0 {
      LexLessIrreflexive(a[1..]);
    }
  }

  lemma {:induction false} LexLessTransitive(a: string, b: string, c: string)
    requires LexLess(a, b) && LexLess(b, c)
    ensures LexLess(a, c)
  {
    if |a| > 0 && a[0] == b[0] && b[0] == c[0] {
      LexLessTransitive(a[1..], b[1..], c[1..]);
    }
  }

  /** Any two different strings are ordered one way or the other. */
  lemma {:induction false} LexLessTotal(a: string, b: string)
    requires a != b
    ensures LexLess(a, b) || LexLess(b, a)
  {
    if |a| > 0 && |b| > 0 && a[0] == b[0] {
      assert a == [a[0]] + a[1..] && b == [b[0]] + b[1..];
      LexLessTotal(a[1..], b[1..]);
    }
  }

  lemma {:induction false} LexLessAsymmetric(a: string, b: string)
    requires LexLess(a, b)
    ensures !LexLess(b, a)
  {
    if LexLess(b, a) {
      LexLessTransitive(a, b, a);
      LexLessIrreflexive(a);
    }
  }
}
