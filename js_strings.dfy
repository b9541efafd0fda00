/**
 * The JavaScript `String` and `Array` built-ins the utilities are written
 * with, on Dafny strings.  A character is a Unicode scalar value, not a
 * UTF-16 code unit.
 * Case mapping is modelled on ASCII letters only; `trim` removes exactly the
 * characters ECMAScript calls WhiteSpace and LineTerminator.
 */
module JsStrings {

  /** `s.startsWith(p)` */
  predicate HasPrefix(s: string, p: string) {
    |p| <= |s| && s[..|p|] == p
  }

  /** `s.endsWith(p)` */
  predicate HasSuffix(s: string, p: string) {
    |p| <= |s| && s[|s| - |p|..] == p
  }

  /** Starting with a one-character string is a test of the first character. */
  lemma OneCharPrefix(s: string, c: char)
    ensures HasPrefix(s, [c]) <==> |s| > 0 && s[0] == c
  {
    if |s| > 0 && s[0] != c {
      assert s[..1][0] != [c][0];
    }
  }

  /** Ending with a one-character string is a test of the last character. */
  lemma OneCharSuffix(s: string, c: char)
    ensures HasSuffix(s, [c]) <==> |s| > 0 && s[|s| - 1] == c
  {
    if |s| > 0 && s[|s| - 1] != c {
      assert s[|s| - 1..][0] != [c][0];
    }
  }

  /** Resolves a `slice` bound: a negative bound counts back from the end. */
  function SliceBound(k: int, len: nat): nat {
    if k < 0 then (if len + k < 0 then 0 else len + k)
    else if k > len then len
    else k
  }

  /** `s.slice(start, end)` */
  function Slice(s: string, start: int, end: int): string {
    var from, to := SliceBound(start, |s|), SliceBound(end, |s|);
    if from < to then s[from..to] else ""
  }

  /** Resolves a `substring` bound: negative bounds count as 0. */
  function SubstringBound(k: int, len: nat): nat {
    if k < 0 then 0 else if k > len then len else k
  }

  /** `s.substring(start, end)`: the bounds are swapped when out of order. */
  function Substring(s: string, start: int, end: int): string {
    var a, b := SubstringBound(start, |s|), SubstringBound(end, |s|);
    if a <= b then s[a..b] else s[b..a]
  }

  /** `s.substring(start)` */
  function SubstringFrom(s: string, start: int): string {
    Substring(s, start, |s|)
  }

  /** `parts.join(sep)` */
  function Join(parts: seq<string>, sep: string): string {
    if |parts| == 0 then ""
    else if |parts| == 1 then parts[0]
    else parts[0] + sep + Join(parts[1..], sep)
  }

  /**
   * `s.split(sep)` for a one-character separator: the maximal runs of
   * non-separator characters, including the empty ones before, between and
   * after separators, so that joining them back gives `s`.
   */
  function Split(s: string, sep: char): (parts: seq<string>)
    ensures |parts| > 0
    decreases |s|
  {
    if s == [] then [""]
    else
      var rest := Split(s[1..], sep);
      if s[0] == sep then [""] + rest
      else [[s[0]] + rest[0]] + rest[1..]
  }

  /** `split` gives one piece more than there are separators. */
  lemma {:induction false} SplitCount(s: string, sep: char)
    ensures |Split(s, sep)| == multiset(s)[sep] + 1
    decreases |s|
  {
    if s != [] {
      SplitCount(s[1..], sep);
      CountFirst(s);
    }
  }

  /** No piece of `split` holds the separator. */
  lemma {:induction false} SplitPieces(s: string, sep: char)
    ensures forall i :: 0 <= i < |Split(s, sep)| ==> sep !in Split(s, sep)[i]
    decreases |s|
  {
    if s != [] {
      SplitPieces(s[1..], sep);
      var rest := Split(s[1..], sep);
      assert sep !in rest[0];
    }
  }

  /** Joining the pieces of `split` with the separator gives the text back. */
  lemma {:induction false} SplitJoinsBack(s: string, sep: char)
    ensures Join(Split(s, sep), [sep]) == s
    decreases |s|
  {
    if s != [] {
      SplitJoinsBack(s[1..], sep);
      var rest := Split(s[1..], sep);
      if s[0] == sep {
        JoinAfterEmpty(rest, [sep]);
      } else {
        JoinOntoFirst(rest, s[0], [sep]);
      }
      assert s == [s[0]] + s[1..];
    }
  }

  /** How many times each character occurs: the first character plus the rest. */
  lemma CountFirst(s: string)
    requires s != []
    ensures multiset(s) == multiset{s[0]} + multiset(s[1..])
  {
    assert s == [s[0]] + s[1..];
  }

  /** An empty first piece puts a separator in front. */
  lemma JoinAfterEmpty(rest: seq<string>, sep: string)
    requires rest != []
    ensures Join([""] + rest, sep) == sep + Join(rest, sep)
  {
    assert ([""] + rest)[1..] == rest;
  }

  /** A character put on the front of the first piece goes on the front of the join. */
  lemma JoinOntoFirst(rest: seq<string>, c: char, sep: string)
    requires rest != []
    ensures Join([[c] + rest[0]] + rest[1..], sep) == [c] + Join(rest, sep)
  {
    var parts := [[c] + rest[0]] + rest[1..];
    if |rest| > 1 {
      assert parts[1..] == rest[1..];
      assert Join(parts, sep) == [c] + rest[0] + sep + Join(rest[1..], sep);
    }
  }

  /** Two pieces join around one separator. */
  lemma JoinTwo(a: string, b: string, sep: string)
    ensures Join([a, b], sep) == a + sep + b
  {
    assert [a, b][1..] == [b];
  }

  /** Three pieces join around two separators. */
  lemma JoinThree(a: string, b: string, c: string, sep: string)
    ensures Join([a, b, c], sep) == a + sep + b + sep + c
  {
    assert [a, b, c][1..] == [b, c];
    JoinTwo(b, c, sep);
  }

  lemma {:induction false} JoinAppend(parts: seq<string>, last: string, sep: string)
    requires |parts| > 0
    ensures Join(parts + [last], sep) == Join(parts, sep) + sep + last
    decreases |parts|
  {
    if |parts| > 1 {
      assert (parts + [last])[1..] == parts[1..] + [last];
      JoinAppend(parts[1..], last, sep);
    }
  }

  /** Joining at a cut point: the two halves meet at one separator. */
  lemma {:induction false} JoinCut(parts: seq<string>, k: nat, sep: string)
    requires 0 < k < |parts|
    ensures Join(parts, sep) == Join(parts[..k], sep) + sep + Join(parts[k..], sep)
    decreases k
  {
    if k > 1 {
      JoinCut(parts[1..], k - 1, sep);
      assert parts[1..][..k - 1] == parts[..k][1..];
      assert parts[1..][k - 1..] == parts[k..];
    }
  }

  /** Splitting at the first separator. */
  lemma {:induction false} SplitAtSeparator(a: string, b: string, sep: char)
    requires sep !in a
    ensures Split(a + [sep] + b, sep) == [a] + Split(b, sep)
    decreases |a|
  {
    var s := a + [sep] + b;
    if a == [] {
      assert s[0] == sep && s[1..] == b;
    } else {
      assert s[0] == a[0] && s[1..] == a[1..] + [sep] + b;
      SplitAtSeparator(a[1..], b, sep);
      var rest := Split(s[1..], sep);
      assert rest[0] == a[1..] && rest[1..] == Split(b, sep);
      assert Split(s, sep) == [[a[0]] + a[1..]] + Split(b, sep);
      assert [a[0]] + a[1..] == a;
    }
  }

  lemma {:induction false} SplitWithoutSeparator(a: string, sep: char)
    requires sep !in a
    ensures Split(a, sep) == [a]
    decreases |a|
  {
    if a != [] {
      SplitWithoutSeparator(a[1..], sep);
      assert [a[0]] + a[1..] == a;
    }
  }

  /**
   * `split` undoes `join`: the pieces of a string built by joining a
   * non-empty list of separator-free pieces are exactly those pieces.
   */
  lemma {:induction false} SplitJoin(parts: seq<string>, sep: char)
    requires |parts| > 0
    requires forall i :: 0 <= i < |parts| ==> sep !in parts[i]
    ensures Split(Join(parts, [sep]), sep) == parts
    decreases |parts|
  {
    if |parts| == 1 {
      SplitWithoutSeparator(parts[0], sep);
    } else {
      SplitJoin(parts[1..], sep);
      SplitAtSeparator(parts[0], Join(parts[1..], [sep]), sep);
      assert [parts[0]] + parts[1..] == parts;
    }
  }

  /** The text after the last `c` of `s`, or all of `s` when it has no `c`. */
  function AfterLast(s: string, c: char): (tail: string)
    ensures c !in tail
    ensures HasSuffix(s, tail)
    ensures |tail| < |s| ==> s[|s| - |tail| - 1] == c
    decreases |s|
  {
    if s == [] then ""
    else if s[|s| - 1] == c then ""
    else
      var init := s[..|s| - 1];
      var tail := AfterLast(init, c) + [s[|s| - 1]];
      assert s == init + [s[|s| - 1]];
      tail
  }

  /** The text after a `c` that is followed by no other `c`. */
  lemma {:induction false} AfterLastFollowing(a: string, c: char, b: string)
    requires c !in b
    ensures AfterLast(a + [c] + b, c) == b
    decreases |b|
  {
    var s := a + [c] + b;
    if b != [] {
      var init := b[..|b| - 1];
      assert s[..|s| - 1] == a + [c] + init;
      assert s[|s| - 1] == b[|b| - 1];
      AfterLastFollowing(a, c, init);
      assert init + [b[|b| - 1]] == b;
    }
  }

  /** Without any `c`, the text after the last `c` is all of `s`. */
  lemma {:induction false} AfterLastAbsent(s: string, c: char)
    requires c !in s
    ensures AfterLast(s, c) == s
    decreases |s|
  {
    if s != [] {
      AfterLastAbsent(s[..|s| - 1], c);
      assert s[..|s| - 1] + [s[|s| - 1]] == s;
    }
  }

  /**
   * `s.replaceAll(pat, rep)` with a string pattern: occurrences are found
   * left to right and do not overlap.  (None of the replacements used here
   * contains a `$` pattern.)
   */
  function ReplaceAll(s: string, pat: string, rep: string): string
    requires pat != ""
    decreases |s|
  {
    if s == [] then []
    else if HasPrefix(s, pat) then rep + ReplaceAll(s[|pat|..], pat, rep)
    else [s[0]] + ReplaceAll(s[1..], pat, rep)
  }

  /** Text that cannot start the pattern is copied through unchanged. */
  lemma {:induction false} ReplaceAllSkips(u: string, rest: string, pat: string, rep: string)
    requires pat != "" && pat[0] !in u
    ensures ReplaceAll(u + rest, pat, rep) == u + ReplaceAll(rest, pat, rep)
    decreases |u|
  {
    if u != [] {
      var s := u + rest;
      assert s[0] == u[0] && s[1..] == u[1..] + rest;
      assert !HasPrefix(s, pat);
      ReplaceAllSkips(u[1..], rest, pat, rep);
    } else {
      assert u + rest == rest;
    }
  }

  /**
   * A piece whose second character differs from the pattern's, and which
   * holds the pattern's first character at most in front, is copied through.
   */
  lemma ReplaceAllSkipsMismatch(p: string, rest: string, pat: string, rep: string)
    requires |p| >= 2 && |pat| >= 2 && p[1] != pat[1] && pat[0] !in p[1..]
    ensures ReplaceAll(p + rest, pat, rep) == p + ReplaceAll(rest, pat, rep)
  {
    var s := p + rest;
    assert s[1] == p[1];
    assert !HasPrefix(s, pat) by {
      if |pat| <= |s| { assert s[..|pat|][1] != pat[1]; }
    }
    assert s[0] == p[0] && s[1..] == p[1..] + rest;
    ReplaceAllSkips(p[1..], rest, pat, rep);
    assert [p[0]] + p[1..] == p;
  }

  /** A string in which the pattern's first character never occurs is left unchanged. */
  lemma ReplaceAllAbsent(s: string, pat: string, rep: string)
    requires pat != "" && pat[0] !in s
    ensures ReplaceAll(s, pat, rep) == s
  {
    ReplaceAllSkips(s, [], pat, rep);
    assert s + [] == s;
  }

  /** A one-character pattern is replaced piecewise: the result of a concatenation is the concatenation of the results. */
  lemma {:induction false} ReplaceCharConcat(u: string, v: string, c: char, rep: string)
    ensures ReplaceAll(u + v, [c], rep) == ReplaceAll(u, [c], rep) + ReplaceAll(v, [c], rep)
    decreases |u|
  {
    if u == [] {
      assert u + v == v;
    } else {
      var s := u + v;
      assert s[0] == u[0] && s[1..] == u[1..] + v;
      OneCharPrefix(s, c);
      OneCharPrefix(u, c);
      var head := if u[0] == c then rep else [u[0]];
      calc {
        ReplaceAll(s, [c], rep);
        head + ReplaceAll(u[1..] + v, [c], rep);
      ==  { ReplaceCharConcat(u[1..], v, c, rep); }
        head + (ReplaceAll(u[1..], [c], rep) + ReplaceAll(v, [c], rep));
        (head + ReplaceAll(u[1..], [c], rep)) + ReplaceAll(v, [c], rep);
        ReplaceAll(u, [c], rep) + ReplaceAll(v, [c], rep);
      }
    }
  }

  /** Replacing one character by another keeps the length and acts position by position. */
  lemma {:induction false} ReplaceCharPointwise(s: string, c: char, d: char)
    ensures |ReplaceAll(s, [c], [d])| == |s|
    ensures forall i :: 0 <= i < |s| ==> ReplaceAll(s, [c], [d])[i] == (if s[i] == c then d else s[i])
    decreases |s|
  {
    if s != [] {
      assert s[..1] == [s[0]];
      ReplaceCharPointwise(s[1..], c, d);
    }
  }

  /** ASCII letters and digits: the class `[A-Za-z0-9]`. */
  predicate IsAsciiAlphanumeric(c: char) {
    ('A' <= c <= 'Z') || ('a' <= c <= 'z') || ('0' <= c <= '9')
  }

  /** `toUpperCase` on one character, ASCII letters only. */
  function ToUpperChar(c: char): char {
    if 'a' <= c <= 'z' then (c as int - 32) as char else c
  }

  /** `toLowerCase` on one character, ASCII letters only. */
  function ToLowerChar(c: char): char {
    if 'A' <= c <= 'Z' then (c as int + 32) as char else c
  }

  /** `s.toUpperCase()`: no lower-case ASCII letter is left, and each character is the same letter ignoring case. */
  function ToUpper(s: string): (r: string)
    ensures |r| == |s|
    ensures forall i :: 0 <= i < |r| ==> !('a' <= r[i] <= 'z')
    ensures forall i :: 0 <= i < |s| ==> ToLowerChar(r[i]) == ToLowerChar(s[i])
  {
    seq(|s|, i requires 0 <= i < |s| => ToUpperChar(s[i]))
  }

  /** `s.toLowerCase()`: no upper-case ASCII letter is left, and each character is the same letter ignoring case. */
  function ToLower(s: string): (r: string)
    ensures |r| == |s|
    ensures forall i :: 0 <= i < |r| ==> !('A' <= r[i] <= 'Z')
    ensures forall i :: 0 <= i < |s| ==> ToUpperChar(r[i]) == ToUpperChar(s[i])
  {
    seq(|s|, i requires 0 <= i < |s| => ToLowerChar(s[i]))
  }

  /** The characters `trim` removes: ECMAScript's WhiteSpace and LineTerminator. */
  predicate IsJsWhitespace(c: char) {
    || c == '\t' || c == '\n' || c == '\r' || c == ' '
    || c == '\U{000B}' || c == '\U{000C}' || c == '\U{00A0}' || c == '\U{1680}'
    || ('\U{2000}' <= c <= '\U{200A}')
    || c == '\U{2028}' || c == '\U{2029}' || c == '\U{202F}' || c == '\U{205F}'
    || c == '\U{3000}' || c == '\U{FEFF}'
  }

  function TrimStart(s: string): string
    decreases |s|
  {
    if s != [] && IsJsWhitespace(s[0]) then TrimStart(s[1..]) else s
  }

  function TrimEnd(s: string): string
    decreases |s|
  {
    if s != [] && IsJsWhitespace(s[|s| - 1]) then TrimEnd(s[..|s| - 1]) else s
  }

  /** `s.trim()` */
  function Trim(s: string): string {
    TrimEnd(TrimStart(s))
  }
}
