# Quartz plugin utilities in Dafny

This project models the string-level core of the Quartz community plugin
utilities and proves what their doc comments and unit tests promise:

- **Paths** (`path.dfy`, from `src/path.ts`): the slug kinds (full slug,
  simple slug, relative URL) as predicates on strings; segment-aware suffix
  matching (`endsWith`, `trimSuffix`), slash stripping (`stripSlashes`, and
  lines 59-61 of `getFullSlugFromUrl` on an explicit pathname), slug
  simplification, segment joining, absolute-path forcing, extension
  extraction, folder detection and prefix enumeration. `trimSuffix`,
  `stripSlashes`, `joinSegments`, `getAllSegmentPrefixes` and the pathname
  trimming reassign variables or push into an array step by step; each is a
  method proved equal to a specification function, and the properties are
  proved about those functions.
- **Escape** (`escape.dfy`, from `src/escape.ts`): `escapeHTML` and
  `unescapeHTML` as the five-step `replaceAll` chains they are, with escaping
  proved equal to a character map and unescaping proved to undo it on text
  without `&`.
- **Filter** (`filter.dfy`, from `src/filter.ts`): the default-option merge,
  `normalizeTag`, `includesTag` and the `shouldPublish` decision over page
  data modelled as a small value datatype.
- **Lang** (`lang.dfy`, from `src/lang.ts`): `classNames` and `capitalize`.
- **JsStrings** (`js_strings.dfy`): the JavaScript `String`/`Array`
  built-ins these functions call (`startsWith`, `endsWith`, `slice`,
  `substring`, `split`, `join`, `replaceAll`, `trim`, ASCII
  `toUpperCase`/`toLowerCase`), with the lemmas the modules share
  (`split` undoes `join`, `replaceAll` of text that cannot match).
  `wrappers.dfy` holds the `Option` type used for JavaScript's `undefined`.

A character is a Unicode scalar value, as in Dafny's `string`.

## Model

| member | source | states |
|---|---|---|
| Paths.IsFullSlug | src/path.ts:11-12 | the full-slug type as a predicate: not relative, no leading or trailing slash; `Paths.SimplifySlugOfFullSlug` states what `simplifySlug` does on it |
| Paths.IsSimpleSlug | src/path.ts:14-15 | the simple-slug type as a predicate: non-empty, no `index` last segment, not a relative URL, `/` the only one with a leading slash; `Paths.SimplifySlugOfFullSlug` proves `simplifySlug` returns one on a full slug |
| Paths.IsRelativeURL | src/path.ts:17-18 | the relative-URL type as a predicate: starts with `./` or `../` |
| Paths.EndsWith | src/path.ts:124-126 | `endsWith(s, x)` holds exactly when `s == x` or `x` fills the end of `s` right after a `/` |
| Paths.EndsWithIsLastSegment | src/path.ts:124-126 | for a slash-free `x`, `endsWith(s, x)` holds exactly when `x` is the last `/`-segment of `s` |
| Paths.EndsWithExamples | src/path.ts:119-122 | `"folder/index"` and `"index"` end with `index`, `"myindex"` does not |
| Paths.Trimmed | src/path.ts:138-143 | `trimSuffix` as written: unchanged when `endsWith` fails; otherwise the text before a non-empty suffix, ending in `/` or empty; the empty string for an empty suffix |
| Paths.TrimSuffix | src/path.ts:138-143 | the step-by-step method computes `Trimmed` |
| Paths.TrimmedIntended | src/path.ts:128-137 | the documented reading of `trimSuffix`: remove the matched suffix and keep the separating slash, for every suffix |
| Paths.TrimmedAgreesForNonEmptySuffix | src/path.ts:138-143 | the as-written and documented readings agree for every non-empty suffix |
| Paths.TrimSuffixEmptySuffixErases | src/path.ts:140 | `trimSuffix("folder/", "")` returns `""` where `"folder/"` is meant |
| Paths.TrimSuffixExamples | src/path.ts:134-136 | `"folder/index"` gives `"folder/"`; `"page"` and `"myindex"` are unchanged |
| Paths.Stripped | src/path.ts:155-165 | `stripSlashes` as a function; its contract is stated by `Paths.StrippedShape` |
| Paths.StrippedShape | src/path.ts:155-165 | the result of `stripSlashes` is the stretch of the input after at most one leading `/`, ending at the input's end or (without `onlyStripPrefix`) one `/` before it when that is a `/` |
| Paths.StripSlashes | src/path.ts:155-165 | the step-by-step method computes `Stripped` |
| Paths.StrippedUnchanged | src/path.ts:155-165 | text without a slash at the ends it may strip is returned unchanged |
| Paths.StrippedSlashPair | src/path.ts:155-165 | one slash in front and one behind are both removed |
| Paths.StripSlashesExamples | src/path.ts:151-153 | `"/path/to/file/"` gives `"path/to/file"`; `("/path/", true)` gives `"path/"` |
| Paths.StripSlashesNotIdempotent | src/path.ts:155-165 | `"//a"` strips to `"/a"`, which strips again to `"a"` |
| Paths.StripSlashesIdempotent | src/path.ts:155-165 | without a doubled slash at either end, stripping twice is stripping once |
| Paths.SuffixThenPrefix | src/path.ts:59-61 | dropping one trailing `/` and then one leading `/` is the same as `stripSlashes` with both ends |
| Paths.FullSlugFromPathname | src/path.ts:59-61 | dropping one trailing and then one leading slash of a pathname gives `stripSlashes(pathname)` |
| Paths.SimplifySlug | src/path.ts:30-33 | the result is never empty and never has `index` as its last segment |
| Paths.SimplifiedHasNoIndex | src/path.ts:31 | after trimming `index` and a leading slash no `index` last segment is left |
| Paths.SimplifySlugExamples | src/path.ts:25-28 | `"folder/index"` gives `"folder/"`, `"index"` gives `"/"`, `"page"` stays `"page"` |
| Paths.SimplifySlugOfFullSlug | src/path.ts:30-33 | on a full slug the result is a simple slug: the slug itself when its last segment is not `index`, the slug minus `index` otherwise, `/` for the root |
| Paths.SimplifySlugIdempotent | src/path.ts:30-33 | unless the input starts with `//`, simplifying twice is simplifying once |
| Paths.SimplifySlugNotIdempotent | src/path.ts:30-33 | `"//a"` simplifies to `"/a"` and then to `"a"` |
| Paths.JoinedSegments | src/path.ts:75-97 | `joinSegments` as a function; its contract is stated by `Paths.JoinSegmentsNoDoubledSlash`, `Paths.JoinedPlainSegments` and the lemmas after it |
| Paths.JoinSegments | src/path.ts:75-97 | the step-by-step method computes `JoinedSegments` |
| Paths.StrippedIsTidy | src/path.ts:82 | a kept argument without a doubled slash strips to a non-empty path with no slash at either end and none doubled |
| Paths.TidyJoinedBySlash | src/path.ts:83 | two such paths joined by one `/` are again such a path |
| Paths.JoinSegmentsNoDoubledSlash | src/path.ts:75-97 | when no argument holds a doubled slash and one is kept, the result holds none, and it starts (ends) with `/` exactly when the first (last) argument does |
| Paths.TidyFramed | src/path.ts:88-94 | putting back at most one slash in front and one behind adds no doubled slash |
| Paths.JoinSegmentsOfLoneSlash | src/path.ts:75-97 | `joinSegments("/")` is `"//"` |
| Paths.JoinedPlainSegments | src/path.ts:75-97 | non-empty arguments with no slash at either end are simply joined with `/` |
| Paths.JoinSlashedThree | src/path.ts:75-97 | `joinSegments("/" + x + "/", "/" + y + "/", z)` is `"/" + x + "/" + y + "/" + z` for plain segments: the inner slashes are stripped and only the first argument's leading slash comes back |
| Paths.JoinSkipsEmpty | src/path.ts:80-83 | an empty argument is dropped: `joinSegments(x, "", y)` is `x + "/" + y` for plain segments |
| Paths.StrippedLeading | src/path.ts:155-165 | one leading slash is removed from text that does not end with a slash |
| Paths.StrippedTrailing | src/path.ts:155-165 | one trailing slash is removed from non-empty text that does not start with a slash |
| Paths.JoinLeadingSlash | src/path.ts:88-90 | `joinSegments("/" + x, y)` is `"/" + x + "/" + y` for plain segments |
| Paths.JoinTrailingSlash | src/path.ts:92-94 | `joinSegments(x, y + "/")` is `x + "/" + y + "/"` for plain segments |
| Paths.JoinSegmentsExamples | src/path.ts:70-73 | no arguments give `""`; `("a","b","c")`, `("/a/","/b/","c")`, `("a","","c")`, `("/a","b")` and `("a","b/")` give `"a/b/c"`, `"/a/b/c"`, `"a/c"`, `"/a/b"` and `"a/b/"` |
| Paths.ResolvePath | src/path.ts:108-111 | the result starts with `/`; it is the input exactly when the input starts with `/`, else `/` plus the input |
| Paths.ResolvePathIdempotent | src/path.ts:108-111 | resolving twice is resolving once |
| Paths.ResolvePathThenStrip | src/path.ts:108-111 | stripping the leading slash recovers a relative input |
| Paths.ResolvePathExamples | src/path.ts:104-106 | `"blog/post"` gives `"/blog/post"`, `"/already"` is unchanged |
| Paths.MatchFromFindsLastDot | src/path.ts:176-178 | the leftmost match of `\.[A-Za-z0-9]+$` is the dot and text after the last dot, when that text is non-empty and alphanumeric |
| Paths.GetFileExtension | src/path.ts:176-178 | the extension is the text from the last dot, at least one ASCII letter or digit after it and no other dot, a suffix of the input; none otherwise |
| Paths.GetFileExtensionOfName | src/path.ts:176-178 | a name ending in a dot and a non-empty run of ASCII letters and digits has that dot and run as its extension, whatever comes before the dot |
| Paths.GetFileExtensionWithoutDot | src/path.ts:176-178 | a name without a dot has no extension |
| Paths.GetFileExtensionExamples | src/path.ts:172-174 | `"file.md"` gives `".md"`, `"file"` gives none, `"archive.tar.gz"` gives `".gz"` |
| Paths.IsFolderPath | src/path.ts:190-197 | a folder path ends with `/` or has last segment `index`, `index.md` or `index.html`, and nothing else is one |
| Paths.IsFolderPathExamples | src/path.ts:185-188 | `"folder/"` and `"folder/index"` are folders, `"file.md"` is not |
| Paths.SegmentPrefixes | src/path.ts:207-214 | entry `i` joins the first `i + 1` segments with `/`; its contract is stated by `Paths.SegmentPrefixesCount`, `Paths.SegmentPrefixStep` and `Paths.SegmentPrefixesArePrefixes` |
| Paths.GetAllSegmentPrefixes | src/path.ts:207-214 | the loop pushes exactly the prefixes `SegmentPrefixes` describes, in order |
| Paths.SegmentPrefixesCount | src/path.ts:207-214 | one prefix per segment, one more than there are slashes; the last is the path itself |
| Paths.SegmentPrefixStep | src/path.ts:207-214 | each prefix but the last is followed in the path by `/` and the remaining segments; the next prefix adds one segment |
| Paths.SegmentPrefixesArePrefixes | src/path.ts:207-214 | every entry is a prefix of the path and each but the last stops just before a `/` |
| Paths.SegmentPrefixesOfJoin | src/path.ts:207-214 | for a path built from slash-free segments, entry `i` is the first `i+1` segments joined by `/` |
| Paths.SegmentPrefixesOfThree | src/path.ts:203-205 | `a/b/c` gives `[a, a/b, a/b/c]` for any slash-free `a`, `b`, `c` |
| Paths.SegmentPrefixesExample | src/path.ts:207-214 | `"a/b/c"` gives `["a", "a/b", "a/b/c"]` |
| JsStrings.SplitCount | src/path.ts:208 | `split` gives one piece more than there are separators |
| JsStrings.SplitPieces | src/path.ts:208 | no piece of `split` holds the separator |
| JsStrings.SplitJoinsBack | src/path.ts:208 | joining the pieces of `split` with the separator gives the input back |
| JsStrings.SplitJoin | src/path.ts:208-211 | for a non-empty list of separator-free pieces, splitting their join gives the pieces back |
| JsStrings.ReplaceCharPointwise | src/filter.ts:47 | replacing one character by another keeps the length and changes exactly the matching positions |
| Escape.EscapeHTML | src/escape.ts:13-20 | the five `replaceAll` calls in source order; `Escape.EscapeHTMLIsCharMap` proves it equal to the character map `Escaped` |
| Escape.UnescapeHTML | src/escape.ts:30-37 | the five `replaceAll` calls in source order; `Escape.UnescapeEscapeRoundTrip` proves it undoes `escapeHTML` on text without `&` |
| Escape.Entity | src/escape.ts:15-19 | each special character's entity starts with its only `&`, holds no `<`, `>`, `"` or `'`, and is at least four characters long |
| Escape.EscapeStep | src/escape.ts:14-19 | one more `replaceAll` of a character by its entity adds that character to those replaced, when no entity already produced contains it |
| Escape.EscapeHTMLIsCharMap | src/escape.ts:13-20 | `escapeHTML` replaces every special character by its entity and keeps every other character |
| Escape.EscapeHTMLRemovesMarkup | src/escape.ts:13-20 | no `<`, `>`, `"` or `'` is left in the output |
| Escape.EscapeHTMLAmpersandsBeginEntities | src/escape.ts:13-20 | every `&` in the output begins `&amp;`, `&lt;`, `&gt;`, `&quot;` or `&#039;` |
| Escape.EscapeHTMLOfPlainText | src/escape.ts:13-20 | text with none of the five special characters is unchanged |
| Escape.UnescapeHTMLWithoutAmpersand | src/escape.ts:30-37 | text without `&` is unchanged by `unescapeHTML` |
| Escape.UnescapeStep | src/escape.ts:31-36 | replacing one entity by its character in escaped text without `&` of its own takes that character out of those replaced |
| Escape.UnescapeTheRest | src/escape.ts:33-36 | after `&amp;` and `&lt;` are decoded, the `&gt;`, `&quot;` and `&#039;` steps turn the escaped text of an `&`-free input back into the input |
| Escape.UnescapeEscapeRoundTrip | src/escape.ts:13-37 | `unescapeHTML(escapeHTML(s)) == s` whenever `s` has no `&` |
| Escape.UnescapeHTMLDecodesTwice | src/escape.ts:13-37 | `"&lt;"` escapes to `"&amp;lt;"`, which unescapes to `"<"`: the round trip fails with `&` |
| Escape.EscapeHTMLOfTaggedCall | src/escape.ts:11 | the documented example's shape, for any plain tag, call and argument |
| Escape.EscapeHTMLExample | src/escape.ts:11 | `<script>alert("xss")</script>` escapes to `&lt;script&gt;alert(&quot;xss&quot;)&lt;/script&gt;` |
| Escape.UnescapeHTMLExample | src/escape.ts:28 | `&lt;div&gt;` unescapes to `<div>` |
| Filter.MergeOptions | src/filter.ts:6-29 | `{ ...defaultOptions, ...userOptions }`; its contract is stated by `Filter.MergeOptionsOverridesByField` |
| Filter.MergeOptionsOverridesByField | src/filter.ts:6-29 | without user options the defaults are `false`, `["private"]`, `["_drafts/", "_private/"]`; each field the user gives replaces exactly its own default, and each field the user leaves out keeps its default |
| Filter.NormalizeTag | src/filter.ts:12 | a non-string tag normalizes to `""`; a normalized tag has no upper-case ASCII letter |
| Filter.TrimPadded | src/filter.ts:12 | `trim` removes a leading space and a trailing newline around a word whose ends are not white space |
| Filter.NormalizeTagExample | src/filter.ts:12 | `" Private\n"` normalizes to `"private"` |
| Filter.SomeTagIn | src/filter.ts:20 | true exactly when some tag's normalized form is in the list |
| Filter.IncludesTag | src/filter.ts:14-21 | the tag rule fires exactly when the tags are an array and some tag, trimmed and lower-cased, equals some excluded tag lower-cased; tags that are not an array never fire it |
| Filter.NormalizedPath | src/filter.ts:46-47 | a missing or non-string path is `""`; otherwise every backslash becomes `/` and nothing else changes |
| Filter.SomePrefixOf | src/filter.ts:48 | true exactly when the path starts with some listed prefix |
| Filter.ShouldPublish | src/filter.ts:32-52 | a page is published exactly when neither the draft rule (a draft while drafts are not allowed), the tag rule nor the path rule fires |
| Filter.IsDraft | src/filter.ts:37 | only `true` and the string `"true"` mark a draft; its cases are stated by `Filter.DraftFlagExamples` |
| Filter.FrontmatterOf | src/filter.ts:33-36 | absent or `null` frontmatter reads as an object with no `draft` and no `tags`; used by `Filter.ShouldPublish`, whose contract states the rules over it |
| Filter.AllowDraftsIgnoresDraftFlag | src/filter.ts:38 | with `allowDrafts` the draft flag never changes the decision |
| Filter.NonArrayTagsNeverReject | src/filter.ts:15-17 | tags that are not an array never reject |
| Filter.DraftFlagExamples | src/filter.ts:37 | `true` and `"true"` are drafts; `false`, `"True"`, `" true"` and a missing flag are not |
| Filter.BackslashPathRejected | src/filter.ts:46-50 | a path whose backslashes read as slashes start with an excluded prefix is rejected |
| Filter.WindowsDraftPathRejected | src/filter.ts:46-50 | `"_drafts\post.md"` is rejected under the defaults |
| Filter.DraftsFilteredByDefault | src/filter.ts:37-40 | a draft is not published under the defaults |
| Filter.DraftsAllowedWhenConfigured | src/filter.ts:29-52 | with `allowDrafts: true` a draft without tags or path is published |
| Lang.KeptNames | src/lang.ts:6 | the kept names are non-empty, no more than the arguments, and none exactly when no argument is truthy |
| Lang.ClassNames | src/lang.ts:5-7 | the truthy arguments joined by one space; its contract is stated by `Lang.ClassNamesAppend`, `Lang.ClassNamesIgnoresFalsy` and `Lang.ClassNamesSplit` |
| Lang.KeptNamesConcat | src/lang.ts:6 | filtering keeps the order: the kept names of two lists are those of the first then those of the second |
| Lang.ClassNamesIgnoresFalsy | src/lang.ts:5-7 | an `undefined`, `null`, `false` or `""` argument anywhere leaves the result unchanged |
| Lang.ClassNamesAppend | src/lang.ts:5-7 | when both lists keep at least one name, the names of the two lists appear in order, separated by exactly one space |
| Lang.ClassNamesSplit | src/lang.ts:5-7 | when at least one name is kept and no name holds a space, splitting the result at spaces gives back the kept names |
| Lang.ClassNamesSmallCases | src/lang.ts:5-7 | `classNames()` is `""` and `classNames(x)` is `x` for a non-empty `x` |
| Lang.Capitalize | src/lang.ts:1-3 | the length is kept, the first character is upper-cased and every other character is unchanged |
| Lang.CapitalizeIdempotent | src/lang.ts:1-3 | capitalizing twice is capitalizing once |
| Lang.CapitalizeExamples | src/lang.ts:1-3 | `capitalize("")` is `""` and `capitalize("hello")` is `"Hello"` |

## Left out

- `getFullSlug` (src/path.ts:44-47) reads the DOM; `getFullSlugFromUrl` reads `window.location`, so only its slash trimming (lines 59-61) is modelled, on a pathname parameter.
- The functions `src/index.ts` re-exports beyond those in `src/path.ts` (`isFilePath`, `slugifyFilePath`, `pathToRoot`, `resolveRelative`, `transformLink` and the rest) are not part of this model: their definitions are not in `src/path.ts`.
- `src/dom.ts`, `src/emitter.ts` (including its own slash-collapsing `joinSegments`), `src/transformer.ts`, the component, the i18n lookup and the type declarations are not part of this model: they are DOM, file-system, date, JSON and plugin-library glue.
- `toUpperCase`, `toLowerCase` are modelled on ASCII letters only; Unicode case mapping (including mappings that change the length) is left out.
- JavaScript lengths and indices count UTF-16 code units, while a Dafny character is a Unicode scalar value, so a character outside the Basic Multilingual Plane has length 1 here and 2 in JavaScript; lone surrogates cannot be represented. The modelled operations split at, compare, replace and trim only characters of the Basic Multilingual Plane, so their results do not depend on that difference; lengths and indices stated in the contracts count Dafny characters.
- `replaceAll` and `replace` are modelled for literal replacements only; none of the replacements here contains a `$` pattern.
- Filter.MergeOptions: a user field explicitly set to `undefined` overrides the default with `undefined` in JavaScript; here a user field is either given or absent.
- Filter.Page: frontmatter that is present but not an object is not modelled; absent or `null` frontmatter reads as `{}`.
- Filter.NormalizeTag: states that the result has no upper-case ASCII letter, not its full equality with the trimmed, lower-cased tag (that equality is the function's definition).
- Paths.IsSimpleSlug: leaves out the "no file extension" part of the simple-slug description (src/path.ts:14), because `simplifySlug("file.md")` is `"file.md"`.
- Paths.SimplifySlug: does not promise the "no file extension" part of the simple-slug description (src/path.ts:14); `simplifySlug("file.md")` is `"file.md"`, so `IsSimpleSlug` leaves extensions out.
- Paths.StripSlashesIdempotent: proved idempotent when neither stripped end holds a doubled slash, a sufficient condition; `"//a"` shows that a doubled slash can break it, so a blanket idempotence claim for `stripSlashes` does not hold for this code.
- Paths.JoinSegmentsNoDoubledSlash: proved when no argument holds a doubled slash and at least one argument is kept, a sufficient condition; `joinSegments("/")` is `"//"`, so a blanket "never a doubled slash" claim does not hold for this code.
- The plugin object around `shouldPublish` (its name, the unused build context and tree) is left out.

## Findings

| source | as written | input that shows it | evidently intended | confidence | as-written member | corrected member |
|---|---|---|---|---|---|---|
| src/path.ts:138-143 | when `endsWith(s, suffix)` holds, returns `s.slice(0, -suffix.length)`; for an empty suffix that is `s.slice(0, -0)`, the empty string | `trimSuffix("folder/", "")` returns `""` | remove nothing and return `"folder/"` (remove exactly the matched suffix) | high; not executed | Paths.TrimSuffixEmptySuffixErases | Paths.TrimmedIntended |

`SimplifySlug` calls `Trimmed`, as the source calls `trimSuffix`; for its
suffix `"index"` the as-written and corrected readings agree
(`Paths.TrimmedAgreesForNonEmptySuffix`), so its proofs use the corrected
one.
