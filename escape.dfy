/**
 * HTML escaping (src/escape.ts): `escapeHTML` and `unescapeHTML` are chains
 * of five `replaceAll` calls.  Escaping is proved equal to a character map
 * that replaces each special character by its entity; unescaping undoes it
 * on text that holds no `&`.
 */
module Escape {
  import opened JsStrings

  /** The characters `escapeHTML` replaces. */
  predicate IsSpecial(c: char) {
    c == '&' || c == '<' || c == '>' || c == '"' || c == '\''
  }

  /** The entity each special character becomes; any other character stands for itself. */
  function Entity(c: char): (e: string)
    ensures IsSpecial(c) ==> |e| >= 4 && e[0] == '&' && '&' !in e[1..] && !IsSpecial(e[1])
    ensures IsSpecial(c) ==> forall k :: 0 <= k < |e| ==> !IsSpecial(e[k]) || e[k] == '&'
    ensures !IsSpecial(c) ==> e == [c]
  {
    match c
    case '&' => "&amp;"
    case '<' => "&lt;"
    case '>' => "&gt;"
    case '"' => "&quot;"
    case '\'' => "&#039;"
    case _ => [c]
  }

  /** `escapeHTML(unsafe)` */
  function EscapeHTML(unsafe: string): string {
    var s1 := ReplaceAll(unsafe, "&", "&amp;");
    var s2 := ReplaceAll(s1, "<", "&lt;");
    var s3 := ReplaceAll(s2, ">", "&gt;");
    var s4 := ReplaceAll(s3, "\"", "&quot;");
    ReplaceAll(s4, "'", "&#039;")
  }

  /** `unescapeHTML(html)` */
  function UnescapeHTML(html: string): string {
    var s1 := ReplaceAll(html, "&amp;", "&");
    var s2 := ReplaceAll(s1, "&lt;", "<");
    var s3 := ReplaceAll(s2, "&gt;", ">");
    var s4 := ReplaceAll(s3, "&quot;", "\"");
    ReplaceAll(s4, "&#039;", "'")
  }

  // ---------------------------------------------------------------------
  // The character-map reading

  /** Each character of `s` that is in `done` replaced by its entity: the text after the replacements of `done`. */
  function EscapeWith(done: set<char>, s: string): string
    decreases |s|
  {
    if s == [] then []
    else (if s[0] in done then Entity(s[0]) else [s[0]]) + EscapeWith(done, s[1..])
  }

  /** All five special characters. */
  function AllSpecials(): set<char> {
    {'&', '<', '>', '"', '\''}
  }

  /** The reference meaning of escaping: every special character replaced by its entity. */
  function Escaped(s: string): string {
    EscapeWith(AllSpecials(), s)
  }

  lemma {:induction false} EscapeWithNothing(s: string)
    ensures EscapeWith({}, s) == s
    decreases |s|
  {
    if s != [] {
      EscapeWithNothing(s[1..]);
      assert [s[0]] + s[1..] == s;
    }
  }

  lemma {:induction false} EscapeWithConcat(done: set<char>, a: string, b: string)
    ensures EscapeWith(done, a + b) == EscapeWith(done, a) + EscapeWith(done, b)
    decreases |a|
  {
    if a == [] {
      assert a + b == b;
    } else {
      assert (a + b)[0] == a[0] && (a + b)[1..] == a[1..] + b;
      EscapeWithConcat(done, a[1..], b);
    }
  }

  /**
   * One more `replaceAll` of a character by its entity adds that character
   * to those already replaced, provided the entities already produced do not
   * contain it (which is why `&` has to go first).
   */
  lemma {:induction false} EscapeStep(done: set<char>, c: char, s: string)
    requires IsSpecial(c)
    requires forall k :: k in done ==> IsSpecial(k) && c !in Entity(k)
    ensures ReplaceAll(EscapeWith(done, s), [c], Entity(c)) == EscapeWith(done + {c}, s)
    decreases |s|
  {
    if s != [] {
      var piece := if s[0] in done then Entity(s[0]) else [s[0]];
      ReplaceCharConcat(piece, EscapeWith(done, s[1..]), c, Entity(c));
      EscapeStep(done, c, s[1..]);
      if s[0] in done {
        ReplaceAllAbsent(piece, [c], Entity(c));
      } else if s[0] == c {
        assert HasPrefix(piece, [c]);
        assert piece[1..] == [];
        assert ReplaceAll(piece, [c], Entity(c)) == Entity(c) + [];
      } else {
        ReplaceAllAbsent(piece, [c], Entity(c));
      }
    }
  }

  /** `escapeHTML` is the character map: the five `replaceAll` calls in their order give `Escaped`. */
  lemma EscapeHTMLIsCharMap(s: string)
    ensures EscapeHTML(s) == Escaped(s)
  {
    EscapeWithNothing(s);
    EscapeStep({}, '&', s);
    assert {} + {'&'} == {'&'};
    EscapeStep({'&'}, '<', s);
    assert {'&'} + {'<'} == {'&', '<'};
    EscapeStep({'&', '<'}, '>', s);
    assert {'&', '<'} + {'>'} == {'&', '<', '>'};
    EscapeStep({'&', '<', '>'}, '"', s);
    assert {'&', '<', '>'} + {'"'} == {'&', '<', '>', '"'};
    EscapeStep({'&', '<', '>', '"'}, '\'', s);
    assert {'&', '<', '>', '"'} + {'\''} == AllSpecials();
  }

  // ---------------------------------------------------------------------
  // What escaping guarantees

  lemma {:induction false} EscapedHasNoMarkup(s: string)
    ensures forall i :: 0 <= i < |Escaped(s)| ==> !IsSpecial(Escaped(s)[i]) || Escaped(s)[i] == '&'
    decreases |s|
  {
    if s != [] {
      EscapedHasNoMarkup(s[1..]);
      var piece := if s[0] in AllSpecials() then Entity(s[0]) else [s[0]];
      assert Escaped(s) == piece + Escaped(s[1..]);
    }
  }

  /** No `<`, `>`, `"` or `'` survives `escapeHTML`. */
  lemma EscapeHTMLRemovesMarkup(s: string)
    ensures '<' !in EscapeHTML(s) && '>' !in EscapeHTML(s)
    ensures '"' !in EscapeHTML(s) && '\'' !in EscapeHTML(s)
  {
    EscapeHTMLIsCharMap(s);
    EscapedHasNoMarkup(s);
  }

  /** `s[i..]` starts with one of the five entities. */
  predicate BeginsEntity(s: string, i: nat)
    requires i <= |s|
  {
    || HasPrefix(s[i..], "&amp;") || HasPrefix(s[i..], "&lt;") || HasPrefix(s[i..], "&gt;")
    || HasPrefix(s[i..], "&quot;") || HasPrefix(s[i..], "&#039;")
  }

  lemma {:induction false} EscapedAmpersandsBeginEntities(s: string)
    ensures forall i :: 0 <= i < |Escaped(s)| && Escaped(s)[i] == '&' ==> BeginsEntity(Escaped(s), i)
    decreases |s|
  {
    if s != [] {
      var r := Escaped(s);
      var rest := Escaped(s[1..]);
      var piece := if s[0] in AllSpecials() then Entity(s[0]) else [s[0]];
      assert r == piece + rest;
      EscapedAmpersandsBeginEntities(s[1..]);
      forall i | 0 <= i < |r| && r[i] == '&'
        ensures BeginsEntity(r, i)
      {
        if i < |piece| {
          assert r[i] == piece[i];
          assert i == 0;
          assert r[0..][..|piece|] == piece;
        } else {
          assert r[i..] == rest[i - |piece|..];
          assert rest[i - |piece|] == '&';
        }
      }
    }
  }

  /** Every `&` in the output of `escapeHTML` begins one of the five entities. */
  lemma EscapeHTMLAmpersandsBeginEntities(s: string)
    ensures forall i :: 0 <= i < |EscapeHTML(s)| && EscapeHTML(s)[i] == '&' ==> BeginsEntity(EscapeHTML(s), i)
  {
    EscapeHTMLIsCharMap(s);
    EscapedAmpersandsBeginEntities(s);
  }

  lemma {:induction false} EscapeWithPlain(done: set<char>, s: string)
    requires forall i :: 0 <= i < |s| ==> s[i] !in done
    ensures EscapeWith(done, s) == s
    decreases |s|
  {
    if s != [] {
      EscapeWithPlain(done, s[1..]);
      assert [s[0]] + s[1..] == s;
    }
  }

  /** Text with none of the five special characters is returned unchanged by `escapeHTML`. */
  lemma EscapeHTMLOfPlainText(s: string)
    requires forall i :: 0 <= i < |s| ==> !IsSpecial(s[i])
    ensures EscapeHTML(s) == s
  {
    EscapeHTMLIsCharMap(s);
    EscapeWithPlain(AllSpecials(), s);
  }

  /** Every pattern `unescapeHTML` looks for starts with `&`, so text without `&` is returned unchanged. */
  lemma UnescapeHTMLWithoutAmpersand(s: string)
    requires '&' !in s
    ensures UnescapeHTML(s) == s
  {
    ReplaceAllAbsent(s, "&amp;", "&");
    ReplaceAllAbsent(s, "&lt;", "<");
    ReplaceAllAbsent(s, "&gt;", ">");
    ReplaceAllAbsent(s, "&quot;", "\"");
    ReplaceAllAbsent(s, "&#039;", "'");
  }

  // ---------------------------------------------------------------------
  // The round trip

  /** Two different entities already differ in their second character. */
  lemma EntitiesDiffer(k: char, c: char)
    requires IsSpecial(k) && IsSpecial(c) && k != c
    ensures Entity(k)[1] != Entity(c)[1]
  {
  }

  /** Looking for the entity of `c`, the search passes over the entity of another character. */
  lemma OtherEntitySkipped(k: char, c: char, rest: string)
    requires IsSpecial(k) && IsSpecial(c) && k != c
    ensures ReplaceAll(Entity(k) + rest, Entity(c), [c]) == Entity(k) + ReplaceAll(rest, Entity(c), [c])
  {
    EntitiesDiffer(k, c);
    ReplaceAllSkipsMismatch(Entity(k), rest, Entity(c), [c]);
  }

  /**
   * Replacing the entity of `c` by `c` in text escaped for `done` (and with
   * no `&` of its own) takes `c` back out of `done`.
   */
  lemma {:induction false} UnescapeStep(done: set<char>, c: char, s: string)
    requires c in done
    requires forall k :: k in done ==> IsSpecial(k)
    requires '&' !in s
    ensures ReplaceAll(EscapeWith(done, s), Entity(c), [c]) == EscapeWith(done - {c}, s)
    decreases |s|
  {
    if s != [] {
      var e := Entity(c);
      var rest := EscapeWith(done, s[1..]);
      UnescapeStep(done, c, s[1..]);
      if s[0] == c {
        assert EscapeWith(done, s) == e + rest;
        assert HasPrefix(e + rest, e);
        assert (e + rest)[|e|..] == rest;
      } else if s[0] in done {
        assert EscapeWith(done, s) == Entity(s[0]) + rest;
        OtherEntitySkipped(s[0], c, rest);
        assert EscapeWith(done - {c}, s) == Entity(s[0]) + EscapeWith(done - {c}, s[1..]);
      } else {
        assert EscapeWith(done, s) == [s[0]] + rest;
        ReplaceAllSkips([s[0]], rest, e, [c]);
      }
    }
  }

  /**
   * `unescapeHTML` undoes `escapeHTML` on text that holds no `&`.  (With an
   * `&` it need not: see `UnescapeHTMLDecodesTwice`.)
   */
  lemma UnescapeEscapeRoundTrip(s: string)
    requires '&' !in s
    ensures UnescapeHTML(EscapeHTML(s)) == s
  {
    EscapeHTMLIsCharMap(s);
    UnescapeAmpersandAndLessThan(s);
    UnescapeTheRest(s);
  }

  /** The first two steps of `unescapeHTML` take `&` and `<` out of the escaped set. */
  lemma UnescapeAmpersandAndLessThan(s: string)
    requires '&' !in s
    ensures ReplaceAll(ReplaceAll(Escaped(s), "&amp;", "&"), "&lt;", "<") == EscapeWith({'>', '"', '\''}, s)
  {
    var d1 := {'<', '>', '"', '\''};
    var s1 := ReplaceAll(Escaped(s), "&amp;", "&");
    assert s1 == EscapeWith(d1, s) by {
      UnescapeStep(AllSpecials(), '&', s);
      assert AllSpecials() - {'&'} == d1;
    }
    UnescapeStep(d1, '<', s);
    assert d1 - {'<'} == {'>', '"', '\''};
  }

  /** The last three steps of `unescapeHTML` take `>`, `"` and `'` out, leaving the text itself. */
  lemma UnescapeTheRest(s: string)
    requires '&' !in s
    ensures ReplaceAll(ReplaceAll(ReplaceAll(EscapeWith({'>', '"', '\''}, s), "&gt;", ">"), "&quot;", "\""), "&#039;", "'") == s
  {
    calc {
      ReplaceAll(ReplaceAll(ReplaceAll(EscapeWith({'>', '"', '\''}, s), "&gt;", ">"), "&quot;", "\""), "&#039;", "'");
    ==  { UnescapeGreaterThan(s); }
      ReplaceAll(ReplaceAll(EscapeWith({'"', '\''}, s), "&quot;", "\""), "&#039;", "'");
    ==  { UnescapeQuote(s); }
      ReplaceAll(EscapeWith({'\''}, s), "&#039;", "'");
    ==  { UnescapeApostrophe(s); }
      EscapeWith({}, s);
    ==  { EscapeWithNothing(s); }
      s;
    }
  }

  lemma UnescapeGreaterThan(s: string)
    requires '&' !in s
    ensures ReplaceAll(EscapeWith({'>', '"', '\''}, s), "&gt;", ">") == EscapeWith({'"', '\''}, s)
  {
    UnescapeStep({'>', '"', '\''}, '>', s);
    assert Entity('>') == "&gt;";
    assert {'>', '"', '\''} - {'>'} == {'"', '\''};
  }

  lemma UnescapeQuote(s: string)
    requires '&' !in s
    ensures ReplaceAll(EscapeWith({'"', '\''}, s), "&quot;", "\"") == EscapeWith({'\''}, s)
  {
    UnescapeStep({'"', '\''}, '"', s);
    assert Entity('"') == "&quot;";
    assert {'"', '\''} - {'"'} == {'\''};
  }

  lemma UnescapeApostrophe(s: string)
    requires '&' !in s
    ensures ReplaceAll(EscapeWith({'\''}, s), "&#039;", "'") == EscapeWith({}, s)
  {
    UnescapeStep({'\''}, '\'', s);
    assert Entity('\'') == "&#039;";
    assert {'\''} - {'\''} == {};
  }

  // ---------------------------------------------------------------------
  // Examples

  /** A special character on its own becomes its entity. */
  lemma EscapedSpecial(c: char)
    requires IsSpecial(c)
    ensures Escaped([c]) == Entity(c)
  {
    assert [c][1..] == [];
    assert c in AllSpecials();
    assert Escaped([c]) == Entity(c) + Escaped([]);
  }

  /** Text without special characters escapes to itself. */
  predicate IsPlain(s: string) {
    forall i :: 0 <= i < |s| ==> !IsSpecial(s[i])
  }

  /** Escaping one more piece at the end. */
  lemma EscapedAppend(a: string, b: string, eb: string)
    requires Escaped(b) == eb
    ensures Escaped(a + b) == Escaped(a) + eb
  {
    EscapeWithConcat(AllSpecials(), a, b);
  }

  lemma EscapedPlainAppend(a: string, b: string)
    requires IsPlain(b)
    ensures Escaped(a + b) == Escaped(a) + b
  {
    EscapeWithPlain(AllSpecials(), b);
    EscapedAppend(a, b, b);
  }

  /**
   * The shape of the example documented on `escapeHTML`,
   * `<script>alert("xss")</script>`, for any plain tag, call and argument.
   */
  lemma EscapeHTMLOfTaggedCall(tag: string, call: string, arg: string)
    requires IsPlain(tag) && IsPlain(call) && IsPlain(arg)
    ensures EscapeHTML("<" + tag + ">" + call + "(\"" + arg + "\")</" + tag + ">")
         == "&lt;" + tag + "&gt;" + call + "(&quot;" + arg + "&quot;)&lt;/" + tag + "&gt;"
  {
    var open, quoted, close := "<" + tag + ">", "(\"" + arg + "\")", "</" + tag + ">";
    EscapedOpenTag(tag);
    EscapedQuoted(arg);
    EscapedCloseTag(tag);
    EscapedPlainAppend(open, call);
    EscapedAppend(open + call, quoted, "(&quot;" + arg + "&quot;)");
    EscapedAppend(open + call + quoted, close, "&lt;/" + tag + "&gt;");
    var s := open + call + quoted + close;
    assert s == "<" + tag + ">" + call + "(\"" + arg + "\")</" + tag + ">";
    EscapeHTMLIsCharMap(s);
  }

  lemma EscapedOpenTag(tag: string)
    requires IsPlain(tag)
    ensures Escaped("<" + tag + ">") == "&lt;" + tag + "&gt;"
  {
    EscapedSpecial('<');
    EscapedSpecial('>');
    EscapedPlainAppend("<", tag);
    EscapedAppend("<" + tag, ">", "&gt;");
  }

  lemma EscapedQuoted(arg: string)
    requires IsPlain(arg)
    ensures Escaped("(\"" + arg + "\")") == "(&quot;" + arg + "&quot;)"
  {
    var open, quote, close := "(", "\"", ")";
    assert IsPlain(open) && IsPlain(close);
    calc {
      Escaped("(\"" + arg + "\")");
    ==  { assert "(\"" + arg + "\")" == open + quote + arg + quote + close; }
      Escaped(open + quote + arg + quote + close);
    ==  { EscapedPlainAppend(open + quote + arg + quote, close); }
      Escaped(open + quote + arg + quote) + close;
    ==  { EscapedSpecial('"'); EscapedAppend(open + quote + arg, quote, "&quot;"); }
      Escaped(open + quote + arg) + "&quot;" + close;
    ==  { EscapedPlainAppend(open + quote, arg); }
      Escaped(open + quote) + arg + "&quot;" + close;
    ==  { EscapedSpecial('"'); EscapedAppend(open, quote, "&quot;"); }
      Escaped(open) + "&quot;" + arg + "&quot;" + close;
    ==  { EscapedPlainAppend([], open); assert [] + open == open; }
      open + "&quot;" + arg + "&quot;" + close;
    ==  { assert open + "&quot;" == "(&quot;"; assert "&quot;" + close == "&quot;)"; }
      "(&quot;" + arg + "&quot;)";
    }
  }

  lemma EscapedCloseTag(tag: string)
    requires IsPlain(tag)
    ensures Escaped("</" + tag + ">") == "&lt;/" + tag + "&gt;"
  {
    EscapedSpecial('<');
    EscapedSpecial('>');
    assert IsPlain("/");
    EscapedPlainAppend("<", "/");
    assert "<" + "/" == "</";
    EscapedPlainAppend("</", tag);
    EscapedAppend("</" + tag, ">", "&gt;");
  }

  /** The example documented on `escapeHTML`. */
  lemma EscapeHTMLExample()
    ensures EscapeHTML("<script>alert(\"xss\")</script>") == "&lt;script&gt;alert(&quot;xss&quot;)&lt;/script&gt;"
  {
    ExampleWordsArePlain();
    EscapeHTMLOfTaggedCall("script", "alert", "xss");
    ExampleSpelledOut();
  }

  // The literal facts below are kept as separate lemmas: proved inside the
  // example, next to `EscapeHTML` applied to a literal, they exceed the
  // solver's budget.

  lemma ExampleWordsArePlain()
    ensures IsPlain("script") && IsPlain("alert") && IsPlain("xss")
  {
  }

  lemma ExampleSpelledOut()
    ensures "<" + "script" + ">" + "alert" + "(\"" + "xss" + "\")</" + "script" + ">" == "<script>alert(\"xss\")</script>"
    ensures "&lt;" + "script" + "&gt;" + "alert" + "(&quot;" + "xss" + "&quot;)&lt;/" + "script" + "&gt;"
         == "&lt;script&gt;alert(&quot;xss&quot;)&lt;/script&gt;"
  {
    ExampleInputHead();
    ExampleInputTail();
    ExampleOutputHead();
    ExampleOutputTail();
  }

  lemma ExampleInputHead()
    ensures "<" + "script" + ">" + "alert" + "(\"" == "<script>alert(\""
  {}

  lemma ExampleInputTail()
    ensures "<script>alert(\"" + "xss" + "\")</" + "script" + ">" == "<script>alert(\"xss\")</script>"
  {}

  lemma ExampleOutputHead()
    ensures "&lt;" + "script" + "&gt;" + "alert" + "(&quot;" == "&lt;script&gt;alert(&quot;"
  {}

  lemma ExampleOutputTail()
    ensures "&lt;script&gt;alert(&quot;" + "xss" + "&quot;)&lt;/" + "script" + "&gt;" == "&lt;script&gt;alert(&quot;xss&quot;)&lt;/script&gt;"
  {}

  /** `unescapeHTML` turns an escaped tag `&lt;tag&gt;` back into `<tag>`. */
  lemma UnescapeOpenTag(tag: string)
    requires IsPlain(tag) && '&' !in tag
    ensures UnescapeHTML("&lt;" + tag + "&gt;") == "<" + tag + ">"
  {
    EscapedOpenTag(tag);
    EscapeHTMLIsCharMap("<" + tag + ">");
    UnescapeEscapeRoundTrip("<" + tag + ">");
  }

  /** The example documented on `unescapeHTML`. */
  lemma UnescapeHTMLExample()
    ensures UnescapeHTML("&lt;div&gt;") == "<div>"
  {
    assert IsPlain("div") && '&' !in "div";
    UnescapeOpenTag("div");
    assert "<" + "div" + ">" == "<div>";
    assert "&lt;" + "div" + "&gt;" == "&lt;div&gt;";
  }

  /** `&` is decoded first, so an escaped entity is decoded twice: the round trip fails on `&lt;`. */
  lemma UnescapeHTMLDecodesTwice()
    ensures EscapeHTML("&lt;") == "&amp;lt;"
    ensures UnescapeHTML("&amp;lt;") == "<"
  {
    EscapeOfEntityText();
    UnescapeOfDoubleEscape();
  }

  lemma EscapeOfEntityText()
    ensures EscapeHTML("&lt;") == "&amp;lt;"
  {
    EscapedSpecial('&');
    assert IsPlain("lt;");
    EscapedPlainAppend("&", "lt;");
    assert "&" + "lt;" == "&lt;";
    assert "&amp;" + "lt;" == "&amp;lt;";
    EscapeHTMLIsCharMap("&lt;");
  }

  lemma UnescapeOfDoubleEscape()
    ensures UnescapeHTML("&amp;lt;") == "<"
  {
    assert ReplaceAll("&amp;lt;", "&amp;", "&") == "&lt;" by {
      assert HasPrefix("&amp;lt;", "&amp;");
      assert "&amp;lt;"[5..] == "lt;";
      ReplaceAllAbsent("lt;", "&amp;", "&");
      assert "&" + "lt;" == "&lt;";
    }
    assert ReplaceAll("&lt;", "&lt;", "<") == "<" by {
      assert HasPrefix("&lt;", "&lt;");
      assert "&lt;"[4..] == "";
    }
    ReplaceAllAbsent("<", "&gt;", ">");
    ReplaceAllAbsent("<", "&quot;", "\"");
    ReplaceAllAbsent("<", "&#039;", "'");
  }
}
