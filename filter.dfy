/**
 * The example publish filter of src/filter.ts: a page is skipped when it is
 * a draft (unless drafts are allowed), when one of its tags is excluded, or
 * when its path starts with an excluded prefix.
 */
module Filter {
  import opened Wrappers
  import opened JsStrings

  /** A value read from untyped page data: absent, a boolean, a string, an array, or anything else. */
  datatype Value = Missing | Bool(b: bool) | Str(s: string) | Arr(elems: seq<Value>) | Other

  /** The two frontmatter fields the filter reads. */
  datatype Frontmatter = Frontmatter(draft: Value, tags: Value)

  /** The page data the filter reads: the frontmatter (absent or `null` is `None`) and the file path. */
  datatype Page = Page(frontmatter: Option<Frontmatter>, filePath: Value)

  datatype Options = Options(allowDrafts: bool, excludeTags: seq<string>, excludePathPrefixes: seq<string>)

  /** The options a user passes; an absent field is `None`. */
  datatype UserOptions = UserOptions(
    allowDrafts: Option<bool>,
    excludeTags: Option<seq<string>>,
    excludePathPrefixes: Option<seq<string>>)

  const DefaultOptions := Options(false, ["private"], ["_drafts/", "_private/"])

  const NoUserOptions := UserOptions(None, None, None)

  /** `{ ...defaultOptions, ...userOptions }`: every field the user gives replaces the default. */
  function MergeOptions(user: UserOptions): Options {
    Options(
      if user.allowDrafts.Some? then user.allowDrafts.value else DefaultOptions.allowDrafts,
      if user.excludeTags.Some? then user.excludeTags.value else DefaultOptions.excludeTags,
      if user.excludePathPrefixes.Some? then user.excludePathPrefixes.value else DefaultOptions.excludePathPrefixes)
  }

  /** Without user options the defaults apply; a field the user gives changes that field and no other. */
  lemma MergeOptionsOverridesByField(user: UserOptions)
    ensures MergeOptions(NoUserOptions) == Options(false, ["private"], ["_drafts/", "_private/"])
    ensures user.allowDrafts.Some? ==> MergeOptions(user).allowDrafts == user.allowDrafts.value
    ensures user.allowDrafts.None? ==> !MergeOptions(user).allowDrafts
    ensures user.excludeTags.Some? ==> MergeOptions(user).excludeTags == user.excludeTags.value
    ensures user.excludeTags.None? ==> MergeOptions(user).excludeTags == ["private"]
    ensures user.excludePathPrefixes.Some? ==> MergeOptions(user).excludePathPrefixes == user.excludePathPrefixes.value
    ensures user.excludePathPrefixes.None? ==> MergeOptions(user).excludePathPrefixes == ["_drafts/", "_private/"]
    ensures MergeOptions(user).excludeTags
            == MergeOptions(user.(allowDrafts := None, excludePathPrefixes := None)).excludeTags
    ensures MergeOptions(user).excludePathPrefixes
            == MergeOptions(user.(allowDrafts := None, excludeTags := None)).excludePathPrefixes
  {
  }

  // ---------------------------------------------------------------------
  // Tags

  /** `normalizeTag(tag)`: a string trimmed and lower-cased; anything else is `""`. */
  function NormalizeTag(tag: Value): (r: string)
    ensures !tag.Str? ==> r == ""
    ensures forall k :: 0 <= k < |r| ==> !('A' <= r[k] <= 'Z')
  {
    if tag.Str? then ToLower(Trim(tag.s)) else ""
  }

  /** A word padded with a space in front and a newline behind trims back to the word. */
  lemma TrimPadded(w: string)
    requires w != "" && !IsJsWhitespace(w[0]) && !IsJsWhitespace(w[|w| - 1])
    ensures Trim(" " + w + "\n") == w
  {
    var t := w + "\n";
    assert (" " + w + "\n")[1..] == t;
    assert t[0] == w[0];
    assert TrimStart(" " + w + "\n") == t;
    assert t[|t| - 1] == '\n' && t[..|t| - 1] == w;
    assert TrimEnd(t) == TrimEnd(w) == w;
  }

  /** A tag with surrounding white space and capitals normalizes to the bare lower-case word. */
  lemma NormalizeTagExample()
    ensures NormalizeTag(Str(" Private\n")) == "private"
  {
    calc {
      NormalizeTag(Str(" Private\n"));
      ToLower(Trim(" Private\n"));
    ==  { assert " Private\n" == " " + "Private" + "\n"; TrimPadded("Private"); }
      ToLower("Private");
    ==  { var r := ToLower("Private"); assert r[0] == 'p' && r[1..] == "rivate"; }
      "private";
    }
  }

  /** `tags.some((tag) => normalizedExcluded.includes(normalizeTag(tag)))` */
  function SomeTagIn(tags: seq<Value>, normalizedExcluded: seq<string>): (b: bool)
    ensures b <==> exists i :: 0 <= i < |tags| && NormalizeTag(tags[i]) in normalizedExcluded
  {
    if tags == [] then false
    else NormalizeTag(tags[0]) in normalizedExcluded || SomeTagIn(tags[1..], normalizedExcluded)
  }

  /** `excludedTags.map((tag) => tag.toLowerCase())` */
  function LowerAll(tags: seq<string>): seq<string> {
    seq(|tags|, j requires 0 <= j < |tags| => ToLower(tags[j]))
  }

  /**
   * `includesTag(tags, excludedTags)`: the page's tags hit the excluded list
   * exactly when some tag, trimmed and lower-cased, equals some excluded tag
   * lower-cased; tags that are not an array never do.
   */
  function IncludesTag(tags: Value, excludedTags: seq<string>): (b: bool)
    ensures b <==> tags.Arr? && exists i, j :: 0 <= i < |tags.elems| && 0 <= j < |excludedTags|
                                              && NormalizeTag(tags.elems[i]) == ToLower(excludedTags[j])
  {
    if !tags.Arr? then false
    else
      SomeTagInLowered(tags.elems, excludedTags);
      SomeTagIn(tags.elems, LowerAll(excludedTags))
  }

  /** Looking a normalized tag up among the lower-cased excluded tags compares it with each of them. */
  lemma SomeTagInLowered(tags: seq<Value>, excludedTags: seq<string>)
    ensures SomeTagIn(tags, LowerAll(excludedTags)) <==>
              exists i, j :: 0 <= i < |tags| && 0 <= j < |excludedTags|
                             && NormalizeTag(tags[i]) == ToLower(excludedTags[j])
  {
    if SomeTagIn(tags, LowerAll(excludedTags)) {
      var i :| 0 <= i < |tags| && NormalizeTag(tags[i]) in LowerAll(excludedTags);
      var j := LoweredIndex(NormalizeTag(tags[i]), excludedTags);
    }
    if exists i, j :: 0 <= i < |tags| && 0 <= j < |excludedTags|
                      && NormalizeTag(tags[i]) == ToLower(excludedTags[j]) {
      var i, j :| 0 <= i < |tags| && 0 <= j < |excludedTags|
                  && NormalizeTag(tags[i]) == ToLower(excludedTags[j]);
      LoweredMember(excludedTags, j);
    }
  }

  /** Each excluded tag, lower-cased, is among the lower-cased excluded tags. */
  lemma LoweredMember(excludedTags: seq<string>, j: nat)
    requires j < |excludedTags|
    ensures ToLower(excludedTags[j]) in LowerAll(excludedTags)
  {
    assert LowerAll(excludedTags)[j] == ToLower(excludedTags[j]);
  }

  /** A word among the lower-cased excluded tags is the lower-cased form of one of them. */
  lemma LoweredIndex(word: string, excludedTags: seq<string>) returns (j: nat)
    requires word in LowerAll(excludedTags)
    ensures j < |excludedTags| && word == ToLower(excludedTags[j])
  {
    var lowered := LowerAll(excludedTags);
    j :| 0 <= j < |lowered| && lowered[j] == word;
  }

  // ---------------------------------------------------------------------
  // Paths

  /** The file path as a string, `""` when absent or not a string, with every backslash turned into `/`. */
  function NormalizedPath(filePath: Value): (p: string)
    ensures !filePath.Str? ==> p == ""
    ensures filePath.Str? ==> |p| == |filePath.s|
    ensures filePath.Str? ==> forall k :: 0 <= k < |p| ==>
              p[k] == (if filePath.s[k] == '\\' then '/' else filePath.s[k])
  {
    if filePath.Str? then
      ReplaceCharPointwise(filePath.s, '\\', '/');
      ReplaceAll(filePath.s, "\\", "/")
    else ""
  }

  /** `prefixes.some((prefix) => path.startsWith(prefix))` */
  function SomePrefixOf(path: string, prefixes: seq<string>): (b: bool)
    ensures b <==> exists k :: 0 <= k < |prefixes| && HasPrefix(path, prefixes[k])
  {
    if prefixes == [] then false
    else HasPrefix(path, prefixes[0]) || SomePrefixOf(path, prefixes[1..])
  }

  // ---------------------------------------------------------------------
  // shouldPublish

  /** `frontmatter.draft === true || frontmatter.draft === "true"` */
  predicate IsDraft(draft: Value) {
    draft == Bool(true) || draft == Str("true")
  }

  /** `vfile.data?.frontmatter ?? {}` */
  function FrontmatterOf(page: Page): Frontmatter {
    if page.frontmatter.Some? then page.frontmatter.value else Frontmatter(Missing, Missing)
  }

  /**
   * `shouldPublish`, with its early returns in source order: a page is
   * published exactly when none of the three rules fires, so their order does
   * not matter.
   */
  function ShouldPublish(options: Options, page: Page): (publish: bool)
    ensures publish <==> !DraftRejects(options, page) && !TagRejects(options, page) && !PathRejects(options, page)
  {
    var frontmatter := FrontmatterOf(page);
    if IsDraft(frontmatter.draft) && !options.allowDrafts then false
    else if IncludesTag(frontmatter.tags, options.excludeTags) then false
    else if SomePrefixOf(NormalizedPath(page.filePath), options.excludePathPrefixes) then false
    else true
  }

  /** The draft rule: a draft page while drafts are not allowed. */
  predicate DraftRejects(options: Options, page: Page) {
    !options.allowDrafts && IsDraft(FrontmatterOf(page).draft)
  }

  /** The tag rule: some tag matches some excluded tag, ignoring case and surrounding white space. */
  predicate TagRejects(options: Options, page: Page) {
    var tags := FrontmatterOf(page).tags;
    tags.Arr? && exists i, j :: 0 <= i < |tags.elems| && 0 <= j < |options.excludeTags|
                               && NormalizeTag(tags.elems[i]) == ToLower(options.excludeTags[j])
  }

  /** The path rule: the normalized path starts with some excluded prefix. */
  predicate PathRejects(options: Options, page: Page) {
    exists k :: 0 <= k < |options.excludePathPrefixes|
                && HasPrefix(NormalizedPath(page.filePath), options.excludePathPrefixes[k])
  }

  /** With drafts allowed, the draft flag has no effect on the decision. */
  lemma AllowDraftsIgnoresDraftFlag(options: Options, tags: Value, filePath: Value, d1: Value, d2: Value)
    requires options.allowDrafts
    ensures ShouldPublish(options, Page(Some(Frontmatter(d1, tags)), filePath))
         == ShouldPublish(options, Page(Some(Frontmatter(d2, tags)), filePath))
  {
  }

  /** Tags that are not an array never cause a rejection. */
  lemma NonArrayTagsNeverReject(options: Options, page: Page)
    requires !FrontmatterOf(page).tags.Arr?
    ensures !TagRejects(options, page)
  {
  }

  /** Only `true` and the exact string `"true"` mark a draft. */
  lemma DraftFlagExamples()
    ensures IsDraft(Bool(true)) && IsDraft(Str("true"))
    ensures !IsDraft(Bool(false)) && !IsDraft(Str("True")) && !IsDraft(Str(" true")) && !IsDraft(Missing)
  {
    assert Str("True") != Str("true") by {
      assert "True"[0] != "true"[0];
    }
    assert Str(" true") != Str("true") by {
      assert |" true"| != |"true"|;
    }
  }

  /** A path whose backslashes, read as slashes, start with an excluded prefix is rejected. */
  lemma BackslashPathRejected(options: Options, page: Page, k: nat)
    requires k < |options.excludePathPrefixes|
    requires page.filePath.Str?
    requires |options.excludePathPrefixes[k]| <= |page.filePath.s|
    requires forall i :: 0 <= i < |options.excludePathPrefixes[k]| ==>
               options.excludePathPrefixes[k][i]
               == (if page.filePath.s[i] == '\\' then '/' else page.filePath.s[i])
    ensures !ShouldPublish(options, page)
  {
    var p := NormalizedPath(page.filePath);
    var prefix := options.excludePathPrefixes[k];
    assert p[..|prefix|] == prefix;
    assert HasPrefix(p, prefix);
  }

  /** `"_drafts\\post.md"` counts as under `_drafts/`. */
  lemma WindowsDraftPathRejected(tags: Value)
    ensures !ShouldPublish(DefaultOptions, Page(Some(Frontmatter(Missing, tags)), Str("_drafts\\post.md")))
  {
    BackslashPathRejected(DefaultOptions, Page(Some(Frontmatter(Missing, tags)), Str("_drafts\\post.md")), 0);
  }

  /** By default a draft is not published. */
  lemma DraftsFilteredByDefault()
    ensures !ShouldPublish(MergeOptions(NoUserOptions), Page(Some(Frontmatter(Bool(true), Missing)), Missing))
  {
  }

  /** With `allowDrafts: true` a draft with no tags and no path is published. */
  lemma DraftsAllowedWhenConfigured()
    ensures ShouldPublish(MergeOptions(UserOptions(Some(true), None, None)),
                          Page(Some(Frontmatter(Bool(true), Missing)), Missing))
  {
    var options := MergeOptions(UserOptions(Some(true), None, None));
    assert !SomePrefixOf("", options.excludePathPrefixes) by {
      assert !HasPrefix("", "_drafts/") && !HasPrefix("", "_private/");
    }
  }
}
