/**
 * The slug and path primitives of the plugin utilities (src/path.ts).
 *
 * The branded slug types are plain strings at run time; here they are
 * strings together with the predicates their doc comments describe.
 * Operations the source writes by reassigning a variable are methods, each
 * proved equal to a function that the other operations and the lemmas use.
 */
module Paths {
  import opened Wrappers
  import opened JsStrings

  // ---------------------------------------------------------------------
  // Slug kinds

  /** A relative URL starts with `./` or `../`. */
  predicate IsRelativeURL(s: string) {
    HasPrefix(s, "./") || HasPrefix(s, "../")
  }

  /** A full slug is not relative and has no leading or trailing slash; it may end in `index`. */
  predicate IsFullSlug(s: string) {
    !IsRelativeURL(s) && !HasPrefix(s, "/") && !HasSuffix(s, "/")
  }

  /**
   * A simple slug is never empty and has no `index` last segment; the root
   * `/` is the only one that starts with a slash.  It may end in a slash.
   */
  predicate IsSimpleSlug(s: string) {
    s != "" && !EndsWith(s, "index") && (s == "/" || (!HasPrefix(s, "/") && !IsRelativeURL(s)))
  }

  // ---------------------------------------------------------------------
  // endsWith and the last segment

  /** `endsWith(s, suffix)`: `suffix` is all of `s` or its trailing segment. */
  function EndsWith(s: string, suffix: string): (b: bool)
    ensures b <==> s == suffix
                   || (|suffix| < |s| && s[|s| - |suffix| - 1] == '/' && s[|s| - |suffix|..] == suffix)
  {
    var tail := "/" + suffix;
    assert HasSuffix(s, tail) ==> s[|s| - |tail|..] == [s[|s| - |tail|]] + s[|s| - |suffix|..];
    assert |suffix| < |s| ==> s[|s| - |tail|..] == [s[|s| - |tail|]] + s[|s| - |suffix|..];
    s == suffix || HasSuffix(s, tail)
  }

  /** The last `/`-separated segment of `s`. */
  function LastSegment(s: string): string {
    AfterLast(s, '/')
  }

  /**
   * For a slash-free `x`, `EndsWith(s, x)` says exactly that `x` is the last
   * segment of `s`: `endsWith("myindex", "index")` is false.
   */
  lemma EndsWithIsLastSegment(s: string, x: string)
    requires '/' !in x
    ensures EndsWith(s, x) <==> LastSegment(s) == x
  {
    var seg := LastSegment(s);
    assert seg == s[|s| - |seg|..];
    if EndsWith(s, x) && s != x {
      assert s[|s| - |x|..] == x;
    }
  }

  lemma EndsWithExamples()
    ensures EndsWith("folder/index", "index")
    ensures EndsWith("index", "index")
    ensures !EndsWith("myindex", "index")
  {
    assert "myindex"[1] == 'y';
  }

  // ---------------------------------------------------------------------
  // trimSuffix

  /**
   * `trimSuffix(s, suffix)` as written: when `EndsWith(s, suffix)` it
   * returns `s.slice(0, -suffix.length)`.  For an empty suffix that is
   * `s.slice(0, 0)`, the empty string.
   */
  function Trimmed(s: string, suffix: string): (r: string)
    ensures !EndsWith(s, suffix) ==> r == s
    ensures EndsWith(s, suffix) && suffix != "" ==> r + suffix == s && (r == "" || HasSuffix(r, "/"))
    ensures EndsWith(s, suffix) && suffix == "" ==> r == ""
  {
    if EndsWith(s, suffix) then Slice(s, 0, -|suffix|) else s
  }

  /** `trimSuffix`, step by step as the source reassigns `s`. */
  method TrimSuffix(s: string, suffix: string) returns (r: string)
    ensures r == Trimmed(s, suffix)
  {
    r := s;
    if EndsWith(r, suffix) {
      r := Slice(r, 0, -|suffix|);
    }
  }

  /** `trimSuffix` as its doc comment describes it: remove the matched suffix, keep the separating slash. */
  function TrimmedIntended(s: string, suffix: string): (r: string)
    ensures EndsWith(s, suffix) ==> r + suffix == s && (r == "" || HasSuffix(r, "/"))
    ensures !EndsWith(s, suffix) ==> r == s
  {
    if EndsWith(s, suffix) then s[..|s| - |suffix|] else s
  }

  /** The two readings differ only for the empty suffix. */
  lemma TrimmedAgreesForNonEmptySuffix(s: string, suffix: string)
    requires suffix != ""
    ensures Trimmed(s, suffix) == TrimmedIntended(s, suffix)
  {
    if EndsWith(s, suffix) {
      assert Trimmed(s, suffix) + suffix == TrimmedIntended(s, suffix) + suffix;
    }
  }

  /** `trimSuffix("folder/", "")` erases the whole string instead of returning it. */
  lemma TrimSuffixEmptySuffixErases()
    ensures EndsWith("folder/", "")
    ensures Trimmed("folder/", "") == ""
    ensures TrimmedIntended("folder/", "") == "folder/"
  {
  }

  lemma TrimSuffixExamples()
    ensures Trimmed("folder/index", "index") == "folder/"
    ensures Trimmed("page", "index") == "page"
    ensures Trimmed("myindex", "index") == "myindex"
  {
    EndsWithExamples();
    assert !EndsWith("page", "index");
  }

  // ---------------------------------------------------------------------
  // stripSlashes

  /** 1 when `s` starts with a slash, else 0. */
  function LeadingSlash(s: string): nat {
    if HasPrefix(s, "/") then 1 else 0
  }

  /** `stripSlashes(s, onlyStripPrefix)` */
  function Stripped(s: string, onlyStripPrefix: bool): string {
    var t := if HasPrefix(s, "/") then SubstringFrom(s, 1) else s;
    if !onlyStripPrefix && HasSuffix(t, "/") then Slice(t, 0, -1) else t
  }

  /**
   * What `stripSlashes` leaves: the stretch of `s` after at most one leading
   * slash; at its end at most one slash is dropped, exactly when
   * `onlyStripPrefix` is false and one is there.
   */
  lemma StrippedShape(s: string, onlyStripPrefix: bool)
    ensures LeadingSlash(s) + |Stripped(s, onlyStripPrefix)| <= |s|
    ensures Stripped(s, onlyStripPrefix) == s[LeadingSlash(s)..LeadingSlash(s) + |Stripped(s, onlyStripPrefix)|]
    ensures onlyStripPrefix ==> LeadingSlash(s) + |Stripped(s, onlyStripPrefix)| == |s|
    ensures !onlyStripPrefix ==>
              LeadingSlash(s) + |Stripped(s, onlyStripPrefix)|
              == |s| - (if LeadingSlash(s) < |s| && s[|s| - 1] == '/' then 1 else 0)
  {
    var lead := LeadingSlash(s);
    var t := s[lead..];
    assert t == (if HasPrefix(s, "/") then SubstringFrom(s, 1) else s);
    OneCharSuffix(t, '/');
    if !onlyStripPrefix && HasSuffix(t, "/") {
      assert Stripped(s, onlyStripPrefix) == s[lead..|s| - 1];
    }
  }

  /** `stripSlashes`, step by step as the source reassigns `s`. */
  method StripSlashes(s: string, onlyStripPrefix: bool) returns (r: string)
    ensures r == Stripped(s, onlyStripPrefix)
  {
    r := s;
    if HasPrefix(r, "/") {
      r := SubstringFrom(r, 1);
    }
    if !onlyStripPrefix && HasSuffix(r, "/") {
      r := Slice(r, 0, -1);
    }
  }

  /** A string with no slash at either end (or none in front, when only the prefix goes) is left as it is. */
  lemma StrippedUnchanged(s: string, onlyStripPrefix: bool)
    requires !HasPrefix(s, "/") && (onlyStripPrefix || !HasSuffix(s, "/"))
    ensures Stripped(s, onlyStripPrefix) == s
  {
  }

  /** One slash in front and one behind are both removed. */
  lemma StrippedSlashPair(x: string)
    ensures Stripped("/" + x + "/", false) == x
  {
    var s := "/" + x + "/";
    var t := x + "/";
    assert s == "/" + t;
    assert HasPrefix(s, "/") by { assert s[..1] == "/"; }
    assert SubstringFrom(s, 1) == t by { assert s[1..] == t; }
    assert HasSuffix(t, "/") by { assert t[|t| - 1..] == "/"; }
    assert Slice(t, 0, -1) == x by { assert t[..|x|] == x; }
  }

  lemma StripSlashesExamples()
    ensures Stripped("/path/to/file/", false) == "path/to/file"
    ensures Stripped("/path/", true) == "path/"
  {
    OneCharPrefix("/path/to/file/", '/');
    OneCharSuffix("path/to/file/", '/');
    assert "/path/to/file/"[1..] == "path/to/file/";
    assert "path/to/file/"[..12] == "path/to/file";
    OneCharPrefix("/path/", '/');
    assert "/path/"[1..] == "path/";
  }

  /** Stripping is not idempotent: only one slash goes from each end. */
  lemma StripSlashesNotIdempotent()
    ensures Stripped("//a", false) == "/a"
    ensures Stripped(Stripped("//a", false), false) == "a"
  {
    assert Stripped("//a", false) == "/a" by {
      OneCharPrefix("//a", '/');
      OneCharSuffix("/a", '/');
      assert "//a"[1..] == "/a";
    }
    assert Stripped("/a", false) == "a" by {
      OneCharPrefix("/a", '/');
      OneCharSuffix("a", '/');
      assert "/a"[1..] == "a";
    }
  }

  /** Without a doubled slash at either end, a second strip changes nothing. */
  lemma StripSlashesIdempotent(s: string, onlyStripPrefix: bool)
    requires !HasPrefix(s, "//") && !HasSuffix(s, "//")
    ensures Stripped(Stripped(s, onlyStripPrefix), onlyStripPrefix) == Stripped(s, onlyStripPrefix)
  {
    var r := Stripped(s, onlyStripPrefix);
    StrippedShape(s, onlyStripPrefix);
    OneCharPrefix(r, '/');
    OneCharSuffix(r, '/');
    StrippedUnchanged(r, onlyStripPrefix);
  }

  /** Removing a trailing slash before a leading one gives the same text as `stripSlashes`. */
  lemma SuffixThenPrefix(s: string)
    ensures (var u := if HasSuffix(s, "/") then Slice(s, 0, -1) else s;
             if HasPrefix(u, "/") then Slice(u, 1, |u|) else u) == Stripped(s, false)
  {
    StrippedShape(s, false);
    OneCharSuffix(s, '/');
    OneCharPrefix(s, '/');
    var u := if HasSuffix(s, "/") then Slice(s, 0, -1) else s;
    OneCharPrefix(u, '/');
    var tr := if HasSuffix(s, "/") then 1 else 0;
    assert u == s[..|s| - tr];
    if |s| >= 2 {
      assert u[0] == s[0];
    }
    var lu := if HasPrefix(u, "/") then 1 else 0;
    var v := if HasPrefix(u, "/") then Slice(u, 1, |u|) else u;
    assert v == u[lu..];
    assert v == s[LeadingSlash(s)..LeadingSlash(s) + |Stripped(s, false)|];
  }

  /**
   * Lines 59-61 of `getFullSlugFromUrl` on an explicit pathname (the window
   * is not modelled): drop one trailing, then one leading slash.
   */
  method FullSlugFromPathname(pathname: string) returns (rawSlug: string)
    ensures rawSlug == Stripped(pathname, false)
  {
    SuffixThenPrefix(pathname);
    rawSlug := pathname;
    if HasSuffix(rawSlug, "/") {
      rawSlug := Slice(rawSlug, 0, -1);
    }
    if HasPrefix(rawSlug, "/") {
      rawSlug := Slice(rawSlug, 1, |rawSlug|);
    }
  }

  // ---------------------------------------------------------------------
  // simplifySlug

  /** `simplifySlug(fp)`: drop an `index` last segment and a leading slash; `"/"` when nothing is left. */
  function SimplifySlug(fp: string): (r: string)
    ensures r != ""
    ensures !EndsWith(r, "index")
  {
    var res := Stripped(Trimmed(fp, "index"), true);
    SimplifiedHasNoIndex(fp);
    if |res| == 0 then "/" else res
  }

  lemma SimplifiedHasNoIndex(fp: string)
    ensures !EndsWith(Stripped(Trimmed(fp, "index"), true), "index")
  {
    TrimmedAgreesForNonEmptySuffix(fp, "index");
    var t := TrimmedIntended(fp, "index");
    var res := Stripped(t, true);
    StrippedShape(t, true);
    assert res == t[LeadingSlash(t)..];
    if EndsWith(fp, "index") {
      OneCharSuffix(t, '/');
      assert res == "" || res[|res| - 1] == '/';
    } else if HasPrefix(t, "/") {
      assert res == t[1..];
      EndsWithAfterSlash(t, "index");
    }
  }

  /** If the text after a leading slash ends with `x`, so does the whole text. */
  lemma EndsWithAfterSlash(s: string, x: string)
    requires HasPrefix(s, "/")
    ensures EndsWith(s[1..], x) ==> EndsWith(s, x)
  {
    var u := s[1..];
    OneCharPrefix(s, '/');
    if EndsWith(u, x) {
      if u == x {
        assert s[|s| - |x| - 1] == '/' && s[|s| - |x|..] == x;
      } else {
        assert s[|s| - |x| - 1] == u[|u| - |x| - 1];
        assert s[|s| - |x|..] == u[|u| - |x|..];
      }
    }
  }

  lemma SimplifySlugExamples()
    ensures SimplifySlug("folder/index") == "folder/"
    ensures SimplifySlug("index") == "/"
    ensures SimplifySlug("page") == "page"
  {
    EndsWithExamples();
    TrimmedAgreesForNonEmptySuffix("folder/index", "index");
    assert TrimmedIntended("folder/index", "index") == "folder/";
    assert !EndsWith("page", "index");
  }

  /**
   * On a full slug `simplifySlug` gives a simple slug: the slug itself when
   * its last segment is not `index`, else the slug up to and including the
   * slash before `index`, or `/` for the root page.
   */
  lemma SimplifySlugOfFullSlug(fp: string)
    requires IsFullSlug(fp)
    ensures IsSimpleSlug(SimplifySlug(fp))
    ensures !EndsWith(fp, "index") && fp != "" ==> SimplifySlug(fp) == fp
    ensures EndsWith(fp, "index") && fp != "index" ==> SimplifySlug(fp) + "index" == fp
    ensures fp == "index" || fp == "" ==> SimplifySlug(fp) == "/"
  {
    TrimmedAgreesForNonEmptySuffix(fp, "index");
    var t := TrimmedIntended(fp, "index");
    assert !HasPrefix(t, "/") by {
      if t != "" { assert t[0] == fp[0]; }
    }
    var r := SimplifySlug(fp);
    assert r != "/" ==> HasPrefix(fp, r);
  }

  /** Unless the slug starts with two slashes, simplifying twice is simplifying once. */
  lemma SimplifySlugIdempotent(fp: string)
    requires !HasPrefix(fp, "//")
    ensures SimplifySlug(SimplifySlug(fp)) == SimplifySlug(fp)
  {
    TrimmedAgreesForNonEmptySuffix(fp, "index");
    var t := TrimmedIntended(fp, "index");
    var r := SimplifySlug(fp);
    TrimmedAgreesForNonEmptySuffix(r, "index");
    if r != "/" {
      var lead := LeadingSlash(t);
      StrippedShape(t, true);
      assert r == t[lead..];
      assert fp[..|t|] == t;
      assert r[0] != '/' by {
        if lead == 1 {
          OneCharPrefix(t, '/');
          assert fp[..2] == t[..2] == [t[0], r[0]];
        } else {
          OneCharPrefix(t, '/');
        }
      }
      OneCharPrefix(r, '/');
      StrippedUnchanged(r, true);
    } else {
      assert !EndsWith("/", "index");
      OneCharPrefix("/", '/');
      assert Stripped("/", true) == "";
    }
  }

  /** Two leading slashes: the first call removes only one of them. */
  lemma SimplifySlugNotIdempotent()
    ensures SimplifySlug("//a") == "/a"
    ensures SimplifySlug("/a") == "a"
  {
    assert !EndsWith("//a", "index");
    assert !EndsWith("/a", "index");
  }

  // ---------------------------------------------------------------------
  // joinSegments

  /** The arguments `joinSegments` keeps: all but `""` and `"/"`, in order. */
  function KeptSegments(args: seq<string>): (kept: seq<string>)
    ensures forall k :: 0 <= k < |kept| ==> kept[k] != "" && kept[k] != "/"
  {
    if args == [] then []
    else (if args[0] != "" && args[0] != "/" then [args[0]] else []) + KeptSegments(args[1..])
  }

  /** Each kept argument with one slash stripped from either end. */
  function StripEach(parts: seq<string>): seq<string> {
    seq(|parts|, k requires 0 <= k < |parts| => Stripped(parts[k], false))
  }

  /**
   * `joinSegments(...args)`: the kept arguments, stripped, joined with `/`;
   * a slash in front when the first argument starts with one, and a slash
   * behind when the last argument ends with one.
   */
  function JoinedSegments(args: seq<string>): string {
    if args == [] then ""
    else
      var lead := if HasPrefix(args[0], "/") then "/" else "";
      var trail := if HasSuffix(args[|args| - 1], "/") then "/" else "";
      lead + Join(StripEach(KeptSegments(args)), "/") + trail
  }

  /** `joinSegments`, step by step as the source reassigns `joined`. */
  method JoinSegments(args: seq<string>) returns (joined: string)
    ensures joined == JoinedSegments(args)
  {
    if |args| == 0 {
      return "";
    }
    ghost var middle := Join(StripEach(KeptSegments(args)), "/");
    ghost var lead := if HasPrefix(args[0], "/") then "/" else "";
    joined := Join(StripEach(KeptSegments(args)), "/");
    var first := args[0];
    var last := args[|args| - 1];
    if HasPrefix(first, "/") {
      joined := "/" + joined;
    }
    assert joined == lead + middle;
    if HasSuffix(last, "/") {
      joined := joined + "/";
    }
  }

  predicate HasDoubledSlash(s: string) {
    exists i :: 0 <= i < |s| - 1 && s[i] == '/' && s[i + 1] == '/'
  }

  /** A non-empty path with no slash at either end and no doubled slash. */
  predicate IsTidyPath(s: string) {
    s != "" && s[0] != '/' && s[|s| - 1] != '/' && !HasDoubledSlash(s)
  }

  lemma StrippedIsTidy(p: string)
    requires p != "" && p != "/" && !HasDoubledSlash(p)
    ensures IsTidyPath(Stripped(p, false))
  {
    var r := Stripped(p, false);
    var lead := LeadingSlash(p);
    StrippedShape(p, false);
    OneCharPrefix(p, '/');
    var end := lead + |r|;
    assert end == |p| || (end == |p| - 1 && p[|p| - 1] == '/');
    assert |p| >= 2 ==> !(p[0] == '/' && p[1] == '/');
    assert |p| >= 2 ==> !(p[|p| - 2] == '/' && p[|p| - 1] == '/');
    assert r != "";
    assert r[0] == p[lead] && r[0] != '/';
    assert r[|r| - 1] == p[end - 1] && r[|r| - 1] != '/';
    forall i | 0 <= i < |r| - 1
      ensures !(r[i] == '/' && r[i + 1] == '/')
    {
      assert r[i] == p[lead + i] && r[i + 1] == p[lead + i + 1];
    }
  }

  lemma TidyJoinedBySlash(a: string, b: string)
    requires IsTidyPath(a) && IsTidyPath(b)
    ensures IsTidyPath(a + "/" + b)
  {
    var s := a + "/" + b;
    forall i | 0 <= i < |s| - 1
      ensures !(s[i] == '/' && s[i + 1] == '/')
    {
      if i + 1 < |a| {
        assert s[i] == a[i] && s[i + 1] == a[i + 1];
      } else if i + 1 == |a| {
        assert s[i] == a[|a| - 1];
      } else if i == |a| {
        assert s[i + 1] == b[0];
      } else {
        assert s[i] == b[i - |a| - 1] && s[i + 1] == b[i - |a|];
      }
    }
  }

  lemma {:induction false} JoinOfTidyIsTidy(parts: seq<string>)
    requires |parts| > 0
    requires forall k :: 0 <= k < |parts| ==> IsTidyPath(parts[k])
    ensures IsTidyPath(Join(parts, "/"))
    decreases |parts|
  {
    if |parts| > 1 {
      JoinOfTidyIsTidy(parts[1..]);
      TidyJoinedBySlash(parts[0], Join(parts[1..], "/"));
    }
  }

  /**
   * When no argument holds a doubled slash and at least one argument is
   * kept, the joined path holds none either, and it starts (ends) with a
   * slash exactly when the first (last) argument does.
   */
  lemma JoinSegmentsNoDoubledSlash(args: seq<string>)
    requires forall i :: 0 <= i < |args| ==> !HasDoubledSlash(args[i])
    requires KeptSegments(args) != []
    ensures !HasDoubledSlash(JoinedSegments(args))
    ensures HasPrefix(JoinedSegments(args), "/") <==> HasPrefix(args[0], "/")
    ensures HasSuffix(JoinedSegments(args), "/") <==> HasSuffix(args[|args| - 1], "/")
  {
    var kept := KeptSegments(args);
    KeptHaveNoDoubledSlash(args);
    var parts := StripEach(kept);
    forall k | 0 <= k < |parts|
      ensures IsTidyPath(parts[k])
    {
      StrippedIsTidy(kept[k]);
    }
    JoinOfTidyIsTidy(parts);
    TidyFramed(if HasPrefix(args[0], "/") then "/" else "", Join(parts, "/"),
               if HasSuffix(args[|args| - 1], "/") then "/" else "");
  }

  /** Filtering keeps only arguments, so it brings in no doubled slash. */
  lemma {:induction false} KeptHaveNoDoubledSlash(args: seq<string>)
    requires forall i :: 0 <= i < |args| ==> !HasDoubledSlash(args[i])
    ensures forall k :: 0 <= k < |KeptSegments(args)| ==> !HasDoubledSlash(KeptSegments(args)[k])
    decreases |args|
  {
    if args != [] {
      KeptHaveNoDoubledSlash(args[1..]);
    }
  }

  /** A tidy path with at most one slash put in front and one behind has no doubled slash. */
  lemma TidyFramed(lead: string, core: string, trail: string)
    requires lead == "" || lead == "/"
    requires trail == "" || trail == "/"
    requires IsTidyPath(core)
    ensures !HasDoubledSlash(lead + core + trail)
    ensures HasPrefix(lead + core + trail, "/") <==> lead == "/"
    ensures HasSuffix(lead + core + trail, "/") <==> trail == "/"
  {
    var s := lead + core + trail;
    assert s[|lead|] == core[0];
    assert s[|s| - 1 - |trail|] == core[|core| - 1];
    forall i | 0 <= i < |s| - 1
      ensures !(s[i] == '/' && s[i + 1] == '/')
    {
      if i < |lead| {
        assert s[i + 1] == core[0];
      } else if i + 1 < |lead| + |core| {
        assert s[i] == core[i - |lead|] && s[i + 1] == core[i - |lead| + 1];
      } else {
        assert s[i] == core[|core| - 1];
      }
    }
  }

  /** A lone `"/"` is dropped, then put back in front and behind. */
  lemma JoinSegmentsOfLoneSlash()
    ensures JoinedSegments(["/"]) == "//"
  {
  }

  /** A non-empty path segment with no slash at either end. */
  predicate IsPlainSegment(p: string) {
    p != "" && !HasPrefix(p, "/") && !HasSuffix(p, "/")
  }

  lemma {:induction false} KeptPlainSegments(args: seq<string>)
    requires forall i :: 0 <= i < |args| ==> IsPlainSegment(args[i])
    ensures KeptSegments(args) == args
    decreases |args|
  {
    if args != [] {
      OneCharPrefix(args[0], '/');
      KeptPlainSegments(args[1..]);
      assert [args[0]] + args[1..] == args;
    }
  }

  /** Plain segments are simply joined with `/`, with nothing dropped or added. */
  lemma JoinedPlainSegments(args: seq<string>)
    requires forall i :: 0 <= i < |args| ==> IsPlainSegment(args[i])
    ensures JoinedSegments(args) == Join(args, "/")
  {
    if args != [] {
      calc {
        JoinedSegments(args);
      ==  { assert !HasPrefix(args[0], "/") && !HasSuffix(args[|args| - 1], "/"); }
        "" + Join(StripEach(KeptSegments(args)), "/") + "";
      ==  { KeptPlainSegments(args); }
        "" + Join(StripEach(args), "/") + "";
      ==  { StripEachPlain(args); }
        Join(args, "/");
      }
    }
  }

  lemma StripEachPlain(args: seq<string>)
    requires forall i :: 0 <= i < |args| ==> IsPlainSegment(args[i])
    ensures StripEach(args) == args
  {
    forall k | 0 <= k < |args|
      ensures StripEach(args)[k] == args[k]
    {
      StrippedUnchanged(args[k], false);
    }
  }

  /** The examples documented on and tested for `joinSegments`, and no arguments at all. */
  lemma JoinSegmentsExamples()
    ensures JoinedSegments([]) == ""
    ensures JoinedSegments(["a", "b", "c"]) == "a/b/c"
    ensures JoinedSegments(["/a/", "/b/", "c"]) == "/a/b/c"
    ensures JoinedSegments(["a", "", "c"]) == "a/c"
    ensures JoinedSegments(["/a", "b"]) == "/a/b"
    ensures JoinedSegments(["a", "b/"]) == "a/b/"
  {
    JoinPlainExample();
    JoinSlashedExample();
    JoinEmptyExample();
    JoinLeadingSlashExample();
    JoinTrailingSlashExample();
  }

  lemma JoinPlainExample()
    ensures JoinedSegments(["a", "b", "c"]) == "a/b/c"
  {
    PlainLetters();
    JoinedPlainSegments(["a", "b", "c"]);
  }

  lemma JoinSlashedExample()
    ensures JoinedSegments(["/a/", "/b/", "c"]) == "/a/b/c"
  {
    assert "/" + "a" + "/" == "/a/" && "/" + "b" + "/" == "/b/";
    assert "/" + "a" + "/" + "b" + "/" + "c" == "/a/b/c";
    assert JoinedSegments(["/" + "a" + "/", "/" + "b" + "/", "c"]) == "/" + "a" + "/" + "b" + "/" + "c" by {
      PlainLetters();
      JoinSlashedThree("a", "b", "c");
    }
  }

  /** The documented slashed case, for any plain segments: `joinSegments("/a/", "/b/", "c")` is `"/a/b/c"`. */
  lemma JoinSlashedThree(x: string, y: string, z: string)
    requires IsPlainSegment(x) && IsPlainSegment(y) && IsPlainSegment(z)
    ensures JoinedSegments(["/" + x + "/", "/" + y + "/", z]) == "/" + x + "/" + y + "/" + z
  {
    var args := ["/" + x + "/", "/" + y + "/", z];
    calc {
      JoinedSegments(args);
    ==  { OneCharPrefix(args[0], '/'); assert HasPrefix(args[0], "/") && !HasSuffix(args[2], "/"); }
      "/" + Join(StripEach(KeptSegments(args)), "/") + "";
    ==  { assert |args[0]| > 1 && |args[1]| > 1; KeptThree(args[0], args[1], args[2]); }
      "/" + Join(StripEach(args), "/") + "";
    ==  { StrippedThree(x, y, z); }
      "/" + Join([x, y, z], "/") + "";
    ==  { JoinThree(x, y, z, "/"); }
      "/" + x + "/" + y + "/" + z;
    }
  }

  lemma StrippedThree(x: string, y: string, z: string)
    requires IsPlainSegment(z)
    ensures StripEach(["/" + x + "/", "/" + y + "/", z]) == [x, y, z]
  {
    var parts := StripEach(["/" + x + "/", "/" + y + "/", z]);
    assert parts[0] == x by { StrippedSlashPair(x); }
    assert parts[1] == y by { StrippedSlashPair(y); }
    assert parts[2] == z by { StrippedUnchanged(z, false); }
  }

  lemma JoinEmptyExample()
    ensures JoinedSegments(["a", "", "c"]) == "a/c"
  {
    assert "a" + "/" + "c" == "a/c";
    assert JoinedSegments(["a", "", "c"]) == "a" + "/" + "c" by {
      PlainLetters();
      JoinSkipsEmpty("a", "c");
    }
  }

  /** An empty argument is dropped: `joinSegments(x, "", y)` is `x + "/" + y` for plain segments. */
  lemma JoinSkipsEmpty(x: string, y: string)
    requires IsPlainSegment(x) && IsPlainSegment(y)
    ensures JoinedSegments([x, "", y]) == x + "/" + y
  {
    var args := [x, "", y];
    assert KeptSegments(args) == KeptSegments([x, y]) by {
      assert args[1..] == ["", y];
      assert ["", y][1..] == [y];
      assert [x, y][1..] == [y];
    }
    assert JoinedSegments([x, y]) == x + "/" + y by {
      JoinedPlainSegments([x, y]);
      JoinTwo(x, y, "/");
    }
  }

  lemma KeptThree(a: string, b: string, c: string)
    requires a != "" && a != "/" && b != "" && b != "/" && c != "" && c != "/"
    ensures KeptSegments([a, b, c]) == [a, b, c]
  {
    assert [a, b, c][1..] == [b, c];
    KeptPair(b, c);
    assert [a] + [b, c] == [a, b, c];
  }

  lemma KeptPair(a: string, b: string)
    requires a != "" && a != "/" && b != "" && b != "/"
    ensures KeptSegments([a, b]) == [a, b]
  {
    assert [a, b][1..] == [b];
    assert [b][1..] == [];
    assert KeptSegments([b]) == [b] + KeptSegments([]);
    assert [a] + [b] == [a, b];
  }

  /** The tested leading-slash case, for any two plain segments: `joinSegments("/a", "b")` is `"/a/b"`. */
  lemma JoinLeadingSlash(x: string, y: string)
    requires IsPlainSegment(x) && IsPlainSegment(y)
    ensures JoinedSegments(["/" + x, y]) == "/" + x + "/" + y
  {
    var args := ["/" + x, y];
    calc {
      JoinedSegments(args);
    ==  { OneCharPrefix(args[0], '/'); assert HasPrefix(args[0], "/") && !HasSuffix(args[1], "/"); }
      "/" + Join(StripEach(KeptSegments(args)), "/") + "";
    ==  { assert |args[0]| > 1; KeptPair(args[0], args[1]); }
      "/" + Join(StripEach(args), "/") + "";
    ==  { StripEachPair(args[0], args[1]); StrippedLeading(x); StrippedUnchanged(y, false); }
      "/" + Join([x, y], "/") + "";
    ==  { JoinTwo(x, y, "/"); }
      "/" + x + "/" + y;
    }
  }

  /** The tested trailing-slash case, for any two plain segments: `joinSegments("a", "b/")` is `"a/b/"`. */
  lemma JoinTrailingSlash(x: string, y: string)
    requires IsPlainSegment(x) && IsPlainSegment(y)
    ensures JoinedSegments([x, y + "/"]) == x + "/" + y + "/"
  {
    var args := [x, y + "/"];
    calc {
      JoinedSegments(args);
    ==  { OneCharSuffix(args[1], '/'); assert !HasPrefix(args[0], "/") && HasSuffix(args[1], "/"); }
      "" + Join(StripEach(KeptSegments(args)), "/") + "/";
    ==  { assert |args[1]| > 1; KeptPair(args[0], args[1]); }
      "" + Join(StripEach(args), "/") + "/";
    ==  { StripEachPair(args[0], args[1]); StrippedUnchanged(x, false); StrippedTrailing(y); }
      "" + Join([x, y], "/") + "/";
    ==  { JoinTwo(x, y, "/"); }
      x + "/" + y + "/";
    }
  }

  lemma StripEachPair(a: string, b: string)
    ensures StripEach([a, b]) == [Stripped(a, false), Stripped(b, false)]
  {
  }

  /** A leading slash is removed from a segment that does not end in a slash. */
  lemma StrippedLeading(x: string)
    requires !HasSuffix(x, "/")
    ensures Stripped("/" + x, false) == x
  {
    OneCharPrefix("/" + x, '/');
    assert SubstringFrom("/" + x, 1) == x;
  }

  /** A trailing slash is removed from a non-empty segment that does not start with a slash. */
  lemma StrippedTrailing(y: string)
    requires y != "" && !HasPrefix(y, "/")
    ensures Stripped(y + "/", false) == y
  {
    OneCharPrefix(y, '/');
    OneCharPrefix(y + "/", '/');
    OneCharSuffix(y + "/", '/');
    assert (y + "/")[..|y|] == y;
  }

  lemma JoinLeadingSlashExample()
    ensures JoinedSegments(["/a", "b"]) == "/a/b"
  {
    PlainLetters();
    JoinLeadingSlash("a", "b");
    assert "/" + "a" == "/a";
    assert "/" + "a" + "/" + "b" == "/a/b";
  }

  lemma JoinTrailingSlashExample()
    ensures JoinedSegments(["a", "b/"]) == "a/b/"
  {
    PlainLetters();
    JoinTrailingSlash("a", "b");
    assert "b" + "/" == "b/";
    assert "a" + "/" + "b" + "/" == "a/b/";
  }

  /** The one-letter segments of the examples are plain. */
  lemma PlainLetters()
    ensures IsPlainSegment("a") && IsPlainSegment("b") && IsPlainSegment("c")
  {
    OneCharPrefix("a", '/'); OneCharPrefix("b", '/'); OneCharPrefix("c", '/');
    OneCharSuffix("a", '/'); OneCharSuffix("b", '/'); OneCharSuffix("c", '/');
  }

  // ---------------------------------------------------------------------
  // resolvePath

  /** `resolvePath(to)`: `to` made absolute by a leading slash. */
  function ResolvePath(to: string): (r: string)
    ensures HasPrefix(r, "/")
    ensures r == to || r == "/" + to
    ensures r == to <==> HasPrefix(to, "/")
  {
    if HasPrefix(to, "/") then to else "/" + to
  }

  lemma ResolvePathExamples()
    ensures ResolvePath("blog/post") == "/blog/post"
    ensures ResolvePath("/already") == "/already"
  {
    OneCharPrefix("blog/post", '/');
    OneCharPrefix("/already", '/');
  }

  lemma ResolvePathIdempotent(to: string)
    ensures ResolvePath(ResolvePath(to)) == ResolvePath(to)
  {
  }

  /** Stripping the leading slash undoes `resolvePath` on a relative path. */
  lemma ResolvePathThenStrip(to: string)
    requires !HasPrefix(to, "/")
    ensures Stripped(ResolvePath(to), true) == to
  {
  }

  // ---------------------------------------------------------------------
  // getFileExtension

  /** Whether `\.[A-Za-z0-9]+$` matches `s` from position `i`. */
  predicate ExtensionMatchesAt(s: string, i: nat)
    requires i <= |s|
  {
    i + 1 < |s| && s[i] == '.' && forall k :: i + 1 <= k < |s| ==> IsAsciiAlphanumeric(s[k])
  }

  /** The regular-expression search from position `i`: the match at the leftmost position where there is one. */
  function MatchFrom(s: string, i: nat): Option<string>
    requires i <= |s|
    decreases |s| - i
  {
    if i == |s| then None
    else if ExtensionMatchesAt(s, i) then Some(s[i..])
    else MatchFrom(s, i + 1)
  }

  /** The extension read directly: the text after the last dot, when it is non-empty and alphanumeric. */
  function ExtensionAfterLastDot(s: string): Option<string> {
    var tail := AfterLast(s, '.');
    if |tail| < |s| && tail != "" && forall k :: 0 <= k < |tail| ==> IsAsciiAlphanumeric(tail[k])
    then Some("." + tail)
    else None
  }

  lemma {:induction false} MatchFromSkips(s: string, j: nat, d: nat)
    requires j <= d <= |s|
    requires forall i :: j <= i < d ==> !ExtensionMatchesAt(s, i)
    ensures MatchFrom(s, j) == MatchFrom(s, d)
    decreases d - j
  {
    if j < d {
      assert !ExtensionMatchesAt(s, j);
      assert MatchFrom(s, j) == MatchFrom(s, j + 1);
      MatchFromSkips(s, j + 1, d);
    }
  }

  /** The leftmost-match search finds the extension after the last dot (so `archive.tar.gz` gives `.gz`). */
  lemma MatchFromFindsLastDot(s: string)
    ensures MatchFrom(s, 0) == ExtensionAfterLastDot(s)
  {
    var tail := AfterLast(s, '.');
    if |tail| == |s| {
      assert tail == s;
      MatchFromSkips(s, 0, |s|);
    } else {
      var d := |s| - |tail| - 1;
      assert s[d] == '.';
      assert s[d + 1..] == tail;
      forall i | 0 <= i < d
        ensures !ExtensionMatchesAt(s, i)
      {
        assert !IsAsciiAlphanumeric(s[d]);
      }
      MatchFromSkips(s, 0, d);
      forall i | d < i <= |s|
        ensures !ExtensionMatchesAt(s, i)
      {
        if i < |s| { assert s[i] == tail[i - d - 1]; }
      }
      MatchFromSkips(s, d + 1, |s|);
      assert s[d..] == "." + tail;
    }
  }

  /**
   * `getFileExtension(s)`: the match of `/\.[A-Za-z0-9]+$/`, or none; it
   * is the dot and the alphanumeric text after the last dot of `s`.
   */
  function GetFileExtension(s: string): (ext: Option<string>)
    ensures ext == ExtensionAfterLastDot(s)
    ensures ext.Some? ==> && |ext.value| >= 2 && ext.value[0] == '.' && HasSuffix(s, ext.value)
                          && '.' !in ext.value[1..]
                          && forall k :: 1 <= k < |ext.value| ==> IsAsciiAlphanumeric(ext.value[k])
  {
    MatchFromFindsLastDot(s);
    MatchFrom(s, 0)
  }

  /** A name ending in a dot and ASCII letters or digits has those, with the dot, as its extension. */
  lemma GetFileExtensionOfName(stem: string, ext: string)
    requires ext != "" && forall k :: 0 <= k < |ext| ==> IsAsciiAlphanumeric(ext[k])
    ensures GetFileExtension(stem + "." + ext) == Some("." + ext)
  {
    AfterLastFollowing(stem, '.', ext);
  }

  /** A name without a dot has no extension. */
  lemma GetFileExtensionWithoutDot(s: string)
    requires '.' !in s
    ensures GetFileExtension(s) == None
  {
    AfterLastAbsent(s, '.');
  }

  lemma GetFileExtensionExamples()
    ensures GetFileExtension("file.md") == Some(".md")
    ensures GetFileExtension("file") == None
    ensures GetFileExtension("archive.tar.gz") == Some(".gz")
  {
    MarkdownExtensionExample();
    GetFileExtensionWithoutDot("file");
    LastExtensionExample();
  }

  lemma MarkdownExtensionExample()
    ensures GetFileExtension("file.md") == Some(".md")
  {
    assert "file" + "." + "md" == "file.md" && "." + "md" == ".md";
    assert IsAsciiAlphanumeric("md"[0]) && IsAsciiAlphanumeric("md"[1]);
    GetFileExtensionOfName("file", "md");
  }

  lemma LastExtensionExample()
    ensures GetFileExtension("archive.tar.gz") == Some(".gz")
  {
    assert "archive.tar" + "." + "gz" == "archive.tar.gz" && "." + "gz" == ".gz";
    assert IsAsciiAlphanumeric("gz"[0]) && IsAsciiAlphanumeric("gz"[1]);
    GetFileExtensionOfName("archive.tar", "gz");
  }

  // ---------------------------------------------------------------------
  // isFolderPath

  /** `isFolderPath(fplike)`: a trailing slash, or a last segment `index`, `index.md` or `index.html`. */
  function IsFolderPath(fplike: string): (b: bool)
    ensures b <==> HasSuffix(fplike, "/") || LastSegment(fplike) in {"index", "index.md", "index.html"}
  {
    EndsWithIsLastSegment(fplike, "index");
    EndsWithIsLastSegment(fplike, "index.md");
    EndsWithIsLastSegment(fplike, "index.html");
    HasSuffix(fplike, "/")
    || EndsWith(fplike, "index")
    || EndsWith(fplike, "index.md")
    || EndsWith(fplike, "index.html")
  }

  lemma IsFolderPathExamples()
    ensures IsFolderPath("folder/")
    ensures IsFolderPath("folder/index")
    ensures !IsFolderPath("file.md")
  {
    assert IsFolderPath("folder/") by {
      OneCharSuffix("folder/", '/');
    }
    assert IsFolderPath("folder/index") by {
      EndsWithExamples();
    }
    assert !IsFolderPath("file.md") by {
      OneCharSuffix("file.md", '/');
      AfterLastAbsent("file.md", '/');
    }
  }

  // ---------------------------------------------------------------------
  // getAllSegmentPrefixes

  /** Entry `i` joins the first `i + 1` segments of `path` with `/`. */
  function SegmentPrefixes(path: string): seq<string> {
    var segments := Split(path, '/');
    seq(|segments|, i requires 0 <= i < |segments| => Join(segments[..i + 1], "/"))
  }

  /** `getAllSegmentPrefixes(path)`, pushing one prefix per loop turn as the source does. */
  method GetAllSegmentPrefixes(path: string) returns (results: seq<string>)
    ensures results == SegmentPrefixes(path)
  {
    var segments := Split(path, '/');
    results := [];
    for i := 0 to |segments|
      invariant results == SegmentPrefixes(path)[..i]
    {
      results := results + [Join(segments[..i + 1], "/")];
    }
  }

  /** One prefix per segment, one more than there are slashes, and the last is `path` itself. */
  lemma SegmentPrefixesCount(path: string)
    ensures |SegmentPrefixes(path)| == multiset(path)['/'] + 1
    ensures SegmentPrefixes(path)[|SegmentPrefixes(path)| - 1] == path
  {
    var segments := Split(path, '/');
    SplitCount(path, '/');
    SplitJoinsBack(path, '/');
    assert segments[..|segments|] == segments;
  }

  /** Each prefix but the last is followed in `path` by a slash and the rest; the next prefix adds one segment. */
  lemma SegmentPrefixStep(path: string, i: nat)
    requires i < |SegmentPrefixes(path)| - 1
    ensures path == SegmentPrefixes(path)[i] + "/" + Join(Split(path, '/')[i + 1..], "/")
    ensures SegmentPrefixes(path)[i + 1] == SegmentPrefixes(path)[i] + "/" + Split(path, '/')[i + 1]
  {
    var segments := Split(path, '/');
    SplitJoinsBack(path, '/');
    JoinStep(segments, i);
  }

  /** Cutting a join after piece `i`, and growing the join of the first `i + 1` pieces by one. */
  lemma JoinStep(segments: seq<string>, i: nat)
    requires i < |segments| - 1
    ensures Join(segments, "/") == Join(segments[..i + 1], "/") + "/" + Join(segments[i + 1..], "/")
    ensures Join(segments[..i + 2], "/") == Join(segments[..i + 1], "/") + "/" + segments[i + 1]
  {
    JoinCut(segments, i + 1, "/");
    var head, next := segments[..i + 1], segments[i + 1];
    assert segments[..i + 2] == head + [next];
    assert Join(head + [next], "/") == Join(head, "/") + "/" + next by {
      JoinAppend(head, next, "/");
    }
  }

  /** Every prefix is a prefix of `path`, and each but the last stops just before a slash. */
  lemma SegmentPrefixesArePrefixes(path: string)
    ensures forall i :: 0 <= i < |SegmentPrefixes(path)| ==> HasPrefix(path, SegmentPrefixes(path)[i])
    ensures forall i :: 0 <= i < |SegmentPrefixes(path)| - 1 ==>
              |SegmentPrefixes(path)[i]| < |path| && path[|SegmentPrefixes(path)[i]|] == '/'
  {
    var p := SegmentPrefixes(path);
    SegmentPrefixesCount(path);
    forall i | 0 <= i < |p|
      ensures HasPrefix(path, p[i])
      ensures i < |p| - 1 ==> |p[i]| < |path| && path[|p[i]|] == '/'
    {
      if i < |p| - 1 {
        SegmentPrefixStep(path, i);
        PrefixBeforeSlash(p[i], Join(Split(path, '/')[i + 1..], "/"));
      } else {
        assert path[..|path|] == path;
      }
    }
  }

  lemma PrefixBeforeSlash(a: string, b: string)
    ensures HasPrefix(a + "/" + b, a) && |a| < |a + "/" + b| && (a + "/" + b)[|a|] == '/'
  {
    assert (a + "/" + b)[..|a|] == a;
  }

  /** The prefixes of a path built from slash-free segments are the joins of the leading segments. */
  lemma SegmentPrefixesOfJoin(segments: seq<string>)
    requires |segments| > 0
    requires forall i :: 0 <= i < |segments| ==> '/' !in segments[i]
    ensures |SegmentPrefixes(Join(segments, "/"))| == |segments|
    ensures forall i :: 0 <= i < |segments| ==>
              SegmentPrefixes(Join(segments, "/"))[i] == Join(segments[..i + 1], "/")
  {
    SplitJoin(segments, '/');
  }

  /** The documented example, for any three slash-free segments `a/b/c`. */
  lemma SegmentPrefixesOfThree(a: string, b: string, c: string)
    requires '/' !in a && '/' !in b && '/' !in c
    ensures SegmentPrefixes(a + "/" + b + "/" + c) == [a, a + "/" + b, a + "/" + b + "/" + c]
  {
    var segments := [a, b, c];
    JoinThree(a, b, c, "/");
    SegmentPrefixesOfJoin(segments);
    var p := SegmentPrefixes(a + "/" + b + "/" + c);
    assert p[0] == a by {
      assert segments[..1] == [a];
    }
    assert p[1] == a + "/" + b by {
      assert segments[..2] == [a, b];
      JoinTwo(a, b, "/");
    }
    assert p[2] == a + "/" + b + "/" + c by {
      assert segments[..3] == segments;
    }
  }

  lemma SegmentPrefixesExample()
    ensures SegmentPrefixes("a/b/c") == ["a", "a/b", "a/b/c"]
  {
    assert "a" + "/" + "b" == "a/b";
    assert "a" + "/" + "b" + "/" + "c" == "a/b/c";
    assert SegmentPrefixes("a" + "/" + "b" + "/" + "c") == ["a", "a" + "/" + "b", "a" + "/" + "b" + "/" + "c"] by {
      SegmentPrefixesOfThree("a", "b", "c");
    }
  }
}
