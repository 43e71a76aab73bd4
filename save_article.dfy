/**
 * `POST /api/articles/save`: create an article or update one in place.
 *
 * The handler resolves the tag names first (reusing tags by name, creating
 * the missing ones), then checks the title, derives the slug, makes it
 * unique among the other articles and writes the article. `JSON.parse`,
 * `Date.now()` and `Math.random()` are inputs.
 */
module SaveArticle {
  import opened Wrappers
  import JsText
  import JsValue
  import Store

  // ----- slugifyTitle -----

  /** The characters `/[^\w\s-]/g` leaves in place. */
  predicate IsTitleChar(c: char) {
    JsText.IsWordChar(c) || JsText.IsSpace(c) || c == '-'
  }

  predicate IsDash(c: char) {
    c == '-'
  }

  /** A character a title slug can hold: `[a-z0-9_-]`. */
  predicate IsTitleSlugChar(c: char) {
    JsText.IsAsciiLower(c) || JsText.IsAsciiDigit(c) || c == '_' || c == '-'
  }

  /** The title slug before the final `trim`: lower-case, drop everything
      but word characters, white space and `-`, turn white-space runs into
      `-`, collapse `-` runs. */
  function TitleDashes(title: string): string {
    var kept := JsText.Keep(JsText.Lower(title), IsTitleChar);
    JsText.ReplaceRuns(JsText.ReplaceRuns(kept, JsText.IsSpace, "-"), IsDash, "-")
  }

  /** `slugifyTitle`. */
  function SlugifyTitle(title: string): string {
    JsText.Trim(TitleDashes(title))
  }

  lemma TitleDashesShape(title: string)
    ensures forall k :: 0 <= k < |TitleDashes(title)| ==> IsTitleSlugChar(TitleDashes(title)[k])
    ensures JsText.NoAdjacent(TitleDashes(title), IsDash)
  {
    var lowered := JsText.Lower(title);
    var kept := JsText.Keep(lowered, IsTitleChar);
    var dashed := JsText.ReplaceRuns(kept, JsText.IsSpace, "-");
    forall k | 0 <= k < |kept| ensures JsText.IsSpace(kept[k]) || IsTitleSlugChar(kept[k]) {
      var i :| 0 <= i < |lowered| && lowered[i] == kept[k];
    }
    JsText.ReplaceRunsPreserves(kept, JsText.IsSpace, "-", IsTitleSlugChar);
    JsText.ReplaceRunsPreserves(dashed, IsDash, "-", IsTitleSlugChar);
    JsText.ReplaceRunsCollapses(dashed, IsDash, '-');
  }

  /** A title slug is made of `[a-z0-9_-]` only (so it holds no white space)
      and never holds `--`; the final `trim` has nothing left to remove. */
  lemma SlugifyTitleShape(title: string)
    ensures forall k :: 0 <= k < |SlugifyTitle(title)| ==> IsTitleSlugChar(SlugifyTitle(title)[k])
    ensures JsText.NoSpace(SlugifyTitle(title))
    ensures JsText.NoAdjacent(SlugifyTitle(title), IsDash)
    ensures SlugifyTitle(title) == TitleDashes(title)
  {
    TitleDashesShape(title);
    JsText.TrimIdentity(TitleDashes(title));
  }

  /** `trim` runs last, when no white space is left to trim: a title that
      starts with white space gives a slug that starts with `-`. */
  lemma SlugifyTitleKeepsLeadingDash(title: string)
    requires title != [] && JsText.IsSpace(title[0])
    ensures SlugifyTitle(title) != [] && SlugifyTitle(title)[0] == '-'
  {
    var lowered := JsText.Lower(title);
    var kept := JsText.Keep(lowered, IsTitleChar);
    var dashed := JsText.ReplaceRuns(kept, JsText.IsSpace, "-");
    assert kept[0] == lowered[0];
    assert dashed[0] == '-';
    SlugifyTitleShape(title);
  }

  // ----- slugifyTag -----

  /** The characters `/[^\w\u4e00-\u9fa5-]+/g` leaves in place: word
      characters, the CJK unified ideographs U+4E00 to U+9FA5, and `-`. */
  predicate IsTagChar(c: char) {
    JsText.IsWordChar(c) || ('\U{4E00}' <= c <= '\U{9FA5}') || c == '-'
  }

  predicate IsNotTagChar(c: char) {
    !IsTagChar(c)
  }

  /** A character a tag slug base can hold. */
  predicate IsTagSlugChar(c: char) {
    IsTagChar(c) && !JsText.IsAsciiUpper(c)
  }

  /** `.replace(/^-|-$/g, '')`: drop one leading and one trailing `-`. */
  function StripDashes(s: string): string {
    var t := if s != [] && s[0] == '-' then s[1..] else s;
    if t != [] && t[|t| - 1] == '-' then t[..|t| - 1] else t
  }

  /** The normalised name before the fallback: lower-case, trim, every run of
      other characters becomes `-`, `-` runs collapse, end dashes go. */
  function TagBase(name: string): string {
    var replaced := JsText.ReplaceRuns(JsText.Trim(JsText.Lower(name)), IsNotTagChar, "-");
    StripDashes(JsText.ReplaceRuns(replaced, IsDash, "-"))
  }

  /** `slugifyTag`: the base, or `tag-<now>-<rand>` when the base is empty;
      `now` is `Date.now()` and `rand` the random base-36 digits. */
  function SlugifyTag(name: string, now: nat, rand: string): (slug: string)
    ensures TagBase(name) != "" ==> slug == TagBase(name)
    ensures TagBase(name) == "" ==> slug == "tag-" + JsText.NatToDecimal(now) + "-" + rand
  {
    var base := TagBase(name);
    if base != "" then base else "tag-" + JsText.NatToDecimal(now) + "-" + rand
  }

  /** The base holds only `[a-z0-9_]`, CJK ideographs and `-`, never `--`,
      and neither starts nor ends with `-`. */
  lemma TagBaseShape(name: string)
    ensures forall k :: 0 <= k < |TagBase(name)| ==> IsTagSlugChar(TagBase(name)[k])
    ensures JsText.NoAdjacent(TagBase(name), IsDash)
    ensures TagBase(name) != [] ==> TagBase(name)[0] != '-' && TagBase(name)[|TagBase(name)| - 1] != '-'
  {
    var trimmed := JsText.Trim(JsText.Lower(name));
    LoweredHasNoUpper(name);
    var replaced := JsText.ReplaceRuns(trimmed, IsNotTagChar, "-");
    assert forall k :: 0 <= k < |trimmed| ==> IsNotTagChar(trimmed[k]) || IsTagSlugChar(trimmed[k]);
    JsText.ReplaceRunsPreserves(trimmed, IsNotTagChar, "-", IsTagSlugChar);
    JsText.ReplaceRunsPreserves(replaced, IsDash, "-", IsTagSlugChar);
    JsText.ReplaceRunsCollapses(replaced, IsDash, '-');
    StripDashesShape(JsText.ReplaceRuns(replaced, IsDash, "-"), IsTagSlugChar);
  }

  /** Trimming the lower-cased name leaves no upper-case letter. */
  lemma LoweredHasNoUpper(name: string)
    ensures forall k :: 0 <= k < |JsText.Trim(JsText.Lower(name))| ==>
      !JsText.IsAsciiUpper(JsText.Trim(JsText.Lower(name))[k])
  {
    var lowered := JsText.Lower(name);
    var trimmed := JsText.Trim(lowered);
    JsText.TrimSpec(lowered);
    forall k | 0 <= k < |trimmed| ensures !JsText.IsAsciiUpper(trimmed[k]) {
      assert trimmed[k] == lowered[JsText.Leading(lowered) + k];
    }
  }

  /** Stripping keeps a slice: the characters stay, no `--` appears, and
      when there was no `--`, no `-` is left at either end. */
  lemma StripDashesShape(s: string, p: char -> bool)
    requires forall k :: 0 <= k < |s| ==> p(s[k])
    requires JsText.NoAdjacent(s, IsDash)
    ensures forall k :: 0 <= k < |StripDashes(s)| ==> p(StripDashes(s)[k])
    ensures JsText.NoAdjacent(StripDashes(s), IsDash)
    ensures StripDashes(s) != [] ==> StripDashes(s)[0] != '-' && StripDashes(s)[|StripDashes(s)| - 1] != '-'
  {
    var i := if s != [] && s[0] == '-' then 1 else 0;
    var r := StripDashes(s);
    assert r == s[i..i + |r|];
    if r != [] && i == 1 {
      assert r[0] == s[1] && !(IsDash(s[0]) && IsDash(s[1]));
    }
    if r != [] && i + |r| < |s| {
      var k := |s| - 2;
      assert s[k + 1] == '-' && r[|r| - 1] == s[k];
      assert !IsDash(s[k]);
    }
  }

  // ----- parseRawTags -----

  /** `JSON.parse`: `None` when it throws. */
  type JsonParser = string -> Option<JsValue.Value>

  /** `raw.replace(/'/g, '"')`. */
  function Requote(s: string): string {
    seq(|s|, k requires 0 <= k < |s| => if s[k] == '\'' then '"' else s[k])
  }

  /** `Array.isArray(v) ? v : []`. */
  function AsArray(v: JsValue.Value): seq<JsValue.Value> {
    if v.Arr? then v.items else []
  }

  /** `parseRawTags`: a string is parsed as JSON, and again with its single
      quotes turned into double quotes when that fails; anything that is not
      an array in the end gives the empty list. */
  function ParseRawTags(raw: JsValue.Value, parse: JsonParser): (names: seq<JsValue.Value>)
    ensures raw.Arr? ==> names == raw.items
    ensures !raw.Arr? && !raw.Str? ==> names == []
    ensures raw.Str? && parse(raw.s).None? && parse(Requote(raw.s)).None? ==> names == []
    ensures raw.Str? && parse(raw.s).Some? ==> names == AsArray(parse(raw.s).value)
  {
    if raw.Str? then
      match parse(raw.s)
      case Some(v) => AsArray(v)
      case None =>
        match parse(Requote(raw.s))
        case Some(v) => AsArray(v)
        case None => []
    else AsArray(raw)
  }

  /** A single-quoted list that the first parse rejects is read by the second. */
  lemma SingleQuotedTags(raw: string, parse: JsonParser, items: seq<JsValue.Value>)
    requires parse(raw).None? && parse(Requote(raw)) == Some(JsValue.Arr(items))
    ensures ParseRawTags(JsValue.Str(raw), parse) == items
  {
  }

  // ----- findOrCreateTags -----

  /** The tag name an entry of the list contributes: a non-empty string whose
      trim is non-empty, trimmed; anything else is skipped. */
  function TagName(v: JsValue.Value): (r: Option<string>)
    ensures r.Some? ==> v.Str? && r.value == JsText.Trim(v.s) && r.value != ""
    ensures r.None? <==> !v.Str? || JsText.Trim(v.s) == ""
  {
    if !JsValue.Truthy(v) || !v.Str? then None
    else if JsText.Trim(v.s) == "" then None
    else Some(JsText.Trim(v.s))
  }

  /** What each entry of the list contributes: its tag name, or `None` when it
      is skipped. */
  function EntryNames(vs: seq<JsValue.Value>): (entries: seq<Option<string>>)
    ensures |entries| == |vs|
  {
    seq(|vs|, k requires 0 <= k < |vs| => TagName(vs[k]))
  }

  /** Every name an entry contributes is already trimmed. */
  predicate Trimmed(entries: seq<Option<string>>) {
    forall k :: 0 <= k < |entries| && entries[k].Some? ==> JsText.Trim(entries[k].value) == entries[k].value
  }

  lemma EntryNamesTrimmed(vs: seq<JsValue.Value>)
    ensures Trimmed(EntryNames(vs))
  {
    forall k | 0 <= k < |vs| && TagName(vs[k]).Some? ensures JsText.Trim(TagName(vs[k]).value) == TagName(vs[k]).value {
      JsText.TrimIdempotent(vs[k].s);
    }
  }

  /** The name an entry contributes, as a list of at most one. */
  function NameOf(entry: Option<string>): seq<string> {
    if entry.Some? then [entry.value] else []
  }

  /** The names of the first `n` entries that are not skipped, in order. */
  function TagNames(entries: seq<Option<string>>, n: nat): seq<string>
    requires n <= |entries|
  {
    if n == 0 then [] else TagNames(entries, n - 1) + NameOf(entries[n - 1])
  }

  /** How many of the first `n` entries are used. */
  function UsedCount(entries: seq<Option<string>>, n: nat): nat
    requires n <= |entries|
  {
    if n == 0 then 0 else UsedCount(entries, n - 1) + (if entries[n - 1].Some? then 1 else 0)
  }

  /** The names of the first `n` entries are the used string entries, trimmed,
      in list order: there are as many as there are used entries, and the
      name of entry `j` comes after the names of the used entries before it.
      Each is non-empty and already trimmed. */
  lemma TagNamesSpec(vs: seq<JsValue.Value>, n: nat)
    requires n <= |vs|
    ensures |TagNames(EntryNames(vs), n)| == UsedCount(EntryNames(vs), n) <= n
    ensures forall j :: 0 <= j < n && TagName(vs[j]).Some? ==>
      UsedCount(EntryNames(vs), j) < UsedCount(EntryNames(vs), n)
      && TagNames(EntryNames(vs), n)[UsedCount(EntryNames(vs), j)] == TagName(vs[j]).value
    ensures forall k :: 0 <= k < |TagNames(EntryNames(vs), n)| ==>
      TagNames(EntryNames(vs), n)[k] != "" && JsText.Trim(TagNames(EntryNames(vs), n)[k]) == TagNames(EntryNames(vs), n)[k]
  {
    NamesPlaces(EntryNames(vs), n);
    TagNamesTrimmed(vs, n);
  }

  /** Where each used entry's name sits among the names. */
  lemma {:induction false} NamesPlaces(entries: seq<Option<string>>, n: nat)
    requires n <= |entries|
    ensures |TagNames(entries, n)| == UsedCount(entries, n) <= n
    ensures forall j :: 0 <= j < n && entries[j].Some? ==>
      UsedCount(entries, j) < UsedCount(entries, n) && TagNames(entries, n)[UsedCount(entries, j)] == entries[j].value
  {
    if n > 0 {
      NamesPlaces(entries, n - 1);
      var before := TagNames(entries, n - 1);
      var names := TagNames(entries, n);
      forall j | 0 <= j < n && entries[j].Some?
        ensures UsedCount(entries, j) < |names| && names[UsedCount(entries, j)] == entries[j].value
      {
        if j < n - 1 {
          assert names[UsedCount(entries, j)] == before[UsedCount(entries, j)];
        }
      }
    }
  }

  /** Every name is non-empty and already trimmed. */
  lemma {:induction false} TagNamesTrimmed(vs: seq<JsValue.Value>, n: nat)
    requires n <= |vs|
    ensures forall k :: 0 <= k < |TagNames(EntryNames(vs), n)| ==>
      TagNames(EntryNames(vs), n)[k] != "" && JsText.Trim(TagNames(EntryNames(vs), n)[k]) == TagNames(EntryNames(vs), n)[k]
  {
    if n > 0 {
      TagNamesTrimmed(vs, n - 1);
      assert EntryNames(vs)[n - 1] == TagName(vs[n - 1]);
      if TagName(vs[n - 1]).Some? {
        JsText.TrimIdempotent(vs[n - 1].s);
      }
    }
  }

  /** What `Date.now()` and the two `Math.random().toString(36)` slices give
      while one entry of the list is handled. */
  datatype Draw = Draw(now: nat, fallback: string, suffix: string)

  /** The slug a new tag is created with: `slugifyTag(name)`, with `-` and
      the random suffix appended when a tag already has that slug. */
  function NewTagSlug(tags: seq<Store.Tag>, name: string, draw: Draw): string {
    var slug := SlugifyTag(name, draw.now, draw.fallback);
    if Store.TagSlugUsed(tags, slug) then slug + "-" + draw.suffix else slug
  }

  /** How the slug of a new tag is chosen from the tags so far, the name and
      the entry's draw; the handler's rule is `NewTagSlug`. */
  type SlugRule = (seq<Store.Tag>, string, Draw) -> string

  /** The tags collection, the id counter and the ids collected after some
      entries of the list, and the write error that stopped the walk, if any. */
  datatype Resolution = Resolution(tags: seq<Store.Tag>, nextId: nat, ids: seq<nat>, failure: Option<Store.DbError>)

  /** One entry of the walk: a skipped entry changes nothing; a name some tag
      has reuses the first such tag; any other name creates a tag; a refused
      create stops the walk. */
  function Step(r: Resolution, entry: Option<string>, draw: Draw, rule: SlugRule): Resolution {
    if r.failure.Some? then r
    else
      match entry
      case None => r
      case Some(name) =>
        match Store.TagNamed(r.tags, name)
        case Some(t) => r.(ids := r.ids + [t.id])
        case None =>
          match Store.CreateTag(r.tags, r.nextId, name, rule(r.tags, name, draw))
          case Ok(t) => Resolution(r.tags + [t], r.nextId + 1, r.ids + [t.id], None)
          case Err(e) => r.(failure := Some(e))
  }

  /** The walk over the first `n` entries, the `k`-th handled with `draws(k)`. */
  function ResolveTags(tags: seq<Store.Tag>, nextId: nat, entries: seq<Option<string>>, draws: nat -> Draw, rule: SlugRule, n: nat): Resolution
    requires n <= |entries|
  {
    if n == 0 then Resolution(tags, nextId, [], None)
    else Step(ResolveTags(tags, nextId, entries, draws, rule, n - 1), entries[n - 1], draws(n - 1), rule)
  }

  /** What one step does to the collection and the ids: at most one tag is
      appended, named after the entry, and it is the first with that name;
      the entry's name then finds the tag whose id was appended. */
  lemma StepFacts(r: Resolution, entry: Option<string>, draw: Draw, rule: SlugRule)
    requires r.failure.None? && (entry.Some? ==> JsText.Trim(entry.value) == entry.value)
    ensures var r' := Step(r, entry, draw, rule);
      && (r'.tags == r.tags || (|r'.tags| == |r.tags| + 1 && r'.tags[..|r.tags|] == r.tags
            && entry.Some? && r'.tags[|r.tags|].name == entry.value
            && Store.TagNamed(r.tags, entry.value).None?))
      && (entry.None? ==> r' == r)
      && (entry.Some? && r'.failure.None? ==>
            r'.ids == r.ids + [Store.TagNamed(r'.tags, entry.value).value.id]
            && Store.TagNamed(r'.tags, entry.value).Some?)
  {
    var r' := Step(r, entry, draw, rule);
    if entry.Some? {
      var name := entry.value;
      if Store.TagNamed(r.tags, name).None? {
        var c := Store.CreateTag(r.tags, r.nextId, name, rule(r.tags, name, draw));
        if c.Ok? {
          assert r'.tags == r.tags + [c.value];
          assert r'.tags[..|r.tags|] == r.tags;
          Store.TagNamedAppend(r.tags, [c.value], name);
        }
      }
    }
  }

  /** A step after a refused create changes nothing. */
  lemma StepAfterFailure(r: Resolution, entry: Option<string>, draw: Draw, rule: SlugRule)
    ensures r.failure.Some? ==> Step(r, entry, draw, rule) == r
  {
  }

  /** A walk that ends without a refused create had none one entry earlier. */
  lemma NoFailureBefore(tags: seq<Store.Tag>, nextId: nat, entries: seq<Option<string>>, draws: nat -> Draw, rule: SlugRule, n: nat)
    requires 0 < n <= |entries|
    requires ResolveTags(tags, nextId, entries, draws, rule, n).failure.None?
    ensures ResolveTags(tags, nextId, entries, draws, rule, n - 1).failure.None?
  {
    StepAfterFailure(ResolveTags(tags, nextId, entries, draws, rule, n - 1), entries[n - 1], draws(n - 1), rule);
  }

  /** Once a create is refused, the walk stops. */
  lemma {:induction false} FailureStops(tags: seq<Store.Tag>, nextId: nat, entries: seq<Option<string>>, draws: nat -> Draw, rule: SlugRule, m: nat, n: nat)
    requires m <= n <= |entries| && ResolveTags(tags, nextId, entries, draws, rule, m).failure.Some?
    ensures ResolveTags(tags, nextId, entries, draws, rule, n) == ResolveTags(tags, nextId, entries, draws, rule, m)
  {
    if m < n {
      FailureStops(tags, nextId, entries, draws, rule, m, n - 1);
      StepAfterFailure(ResolveTags(tags, nextId, entries, draws, rule, n - 1), entries[n - 1], draws(n - 1), rule);
    }
  }

  /** `after` is `tags` with tags appended, each of which is the first with
      its name. */
  ghost predicate AppendsFirst(tags: seq<Store.Tag>, after: seq<Store.Tag>) {
    && |tags| <= |after| && after[..|tags|] == tags
    && forall p :: |tags| <= p < |after| ==> Store.TagNamed(after, after[p].name) == Some(after[p])
  }

  /** A step keeps the collection an extension of the one before the walk. */
  lemma StepKeepsAppends(r: Resolution, entry: Option<string>, draw: Draw, rule: SlugRule, tags: seq<Store.Tag>)
    requires AppendsFirst(tags, r.tags) && (entry.Some? ==> JsText.Trim(entry.value) == entry.value)
    ensures AppendsFirst(tags, Step(r, entry, draw, rule).tags)
  {
    var r' := Step(r, entry, draw, rule);
    StepAfterFailure(r, entry, draw, rule);
    if r.failure.None? {
      StepFacts(r, entry, draw, rule);
      if r'.tags != r.tags {
        var t := r'.tags[|r.tags|];
        assert r'.tags == r.tags + [t];
        assert r'.tags[..|tags|] == r.tags[..|tags|];
        forall p | |tags| <= p < |r'.tags| ensures Store.TagNamed(r'.tags, r'.tags[p].name) == Some(r'.tags[p]) {
          Store.TagNamedAppend(r.tags, [t], r'.tags[p].name);
          if p < |r.tags| {
            assert r'.tags[p] == r.tags[p];
          }
        }
      }
    }
  }

  /** Tags are only ever added: the collection before the walk is a prefix of
      the one after, and every added tag is the first with its name. */
  lemma {:induction false} ResolveOnlyAppends(tags: seq<Store.Tag>, nextId: nat, entries: seq<Option<string>>, draws: nat -> Draw, rule: SlugRule, n: nat)
    requires n <= |entries| && Trimmed(entries)
    ensures AppendsFirst(tags, ResolveTags(tags, nextId, entries, draws, rule, n).tags)
  {
    if n == 0 {
      assert tags[..|tags|] == tags;
    } else {
      ResolveOnlyAppends(tags, nextId, entries, draws, rule, n - 1);
      StepKeepsAppends(ResolveTags(tags, nextId, entries, draws, rule, n - 1), entries[n - 1], draws(n - 1), rule, tags);
    }
  }

  /** There is one id per name, in order, and looking the name up by
      `findOne({ name })` finds the tag with that id. */
  ghost predicate IdsMatch(r: Resolution, names: seq<string>) {
    && |r.ids| == |names|
    && forall k :: 0 <= k < |names| ==>
         Store.TagNamed(r.tags, names[k]).Some? && Store.TagNamed(r.tags, names[k]).value.id == r.ids[k]
  }

  /** A step that is not refused keeps the ids matched with the names. */
  lemma StepKeepsMatch(r: Resolution, entry: Option<string>, draw: Draw, rule: SlugRule, names: seq<string>)
    requires r.failure.None? && IdsMatch(r, names) && Step(r, entry, draw, rule).failure.None?
    requires entry.Some? ==> JsText.Trim(entry.value) == entry.value
    ensures IdsMatch(Step(r, entry, draw, rule), names + NameOf(entry))
  {
    var r' := Step(r, entry, draw, rule);
    StepFacts(r, entry, draw, rule);
    if entry.Some? {
      var name := entry.value;
      var added := r'.tags[|r.tags|..];
      assert r'.tags == r.tags + added;
      var names' := names + [name];
      forall k | 0 <= k < |names'|
        ensures Store.TagNamed(r'.tags, names'[k]).Some? && Store.TagNamed(r'.tags, names'[k]).value.id == r'.ids[k]
      {
        if k < |names| {
          assert names'[k] == names[k];
          Store.TagNamedAppend(r.tags, added, names[k]);
        }
      }
    } else {
      assert names + NameOf(entry) == names;
    }
  }

  /** When no create is refused, the ids collected are matched with the
      names of the entries that were not skipped. */
  lemma {:induction false} ResolvedIdsMatchNames(tags: seq<Store.Tag>, nextId: nat, entries: seq<Option<string>>, draws: nat -> Draw, rule: SlugRule, n: nat)
    requires n <= |entries| && Trimmed(entries)
    requires ResolveTags(tags, nextId, entries, draws, rule, n).failure.None?
    ensures IdsMatch(ResolveTags(tags, nextId, entries, draws, rule, n), TagNames(entries, n))
  {
    if n > 0 {
      NoFailureBefore(tags, nextId, entries, draws, rule, n);
      ResolvedIdsMatchNames(tags, nextId, entries, draws, rule, n - 1);
      StepKeepsMatch(ResolveTags(tags, nextId, entries, draws, rule, n - 1), entries[n - 1], draws(n - 1), rule, TagNames(entries, n - 1));
    }
  }

  /** A name some tag already had before the walk reuses the first such tag:
      its id is that tag's. */
  lemma ReusesExistingTag(tags: seq<Store.Tag>, nextId: nat, entries: seq<Option<string>>, draws: nat -> Draw, rule: SlugRule, k: nat)
    requires Trimmed(entries) && ResolveTags(tags, nextId, entries, draws, rule, |entries|).failure.None?
    requires k < |TagNames(entries, |entries|)| && Store.TagNamed(tags, TagNames(entries, |entries|)[k]).Some?
    ensures k < |ResolveTags(tags, nextId, entries, draws, rule, |entries|).ids|
    ensures ResolveTags(tags, nextId, entries, draws, rule, |entries|).ids[k] == Store.TagNamed(tags, TagNames(entries, |entries|)[k]).value.id
  {
    var r := ResolveTags(tags, nextId, entries, draws, rule, |entries|);
    ResolveOnlyAppends(tags, nextId, entries, draws, rule, |entries|);
    ResolvedIdsMatchNames(tags, nextId, entries, draws, rule, |entries|);
    assert r.tags == tags + r.tags[|tags|..];
    Store.TagNamedAppend(tags, r.tags[|tags|..], TagNames(entries, |entries|)[k]);
  }

  /** The four outcomes of a step, one lemma each: skipped, found, created,
      refused. */
  lemma StepSkips(r: Resolution, draw: Draw, rule: SlugRule)
    ensures Step(r, None, draw, rule) == r
  {
  }

  lemma StepFinds(r: Resolution, name: string, draw: Draw, rule: SlugRule, t: Store.Tag)
    requires r.failure.None? && Store.TagNamed(r.tags, name) == Some(t)
    ensures Step(r, Some(name), draw, rule) == r.(ids := r.ids + [t.id])
  {
  }

  lemma StepCreates(r: Resolution, name: string, draw: Draw, rule: SlugRule, t: Store.Tag)
    requires r.failure.None? && Store.TagNamed(r.tags, name).None?
    requires Store.CreateTag(r.tags, r.nextId, name, rule(r.tags, name, draw)) == Ok(t)
    ensures Step(r, Some(name), draw, rule) == Resolution(r.tags + [t], r.nextId + 1, r.ids + [t.id], None)
  {
  }

  lemma StepRefused(r: Resolution, name: string, draw: Draw, rule: SlugRule, e: Store.DbError)
    requires r.failure.None? && Store.TagNamed(r.tags, name).None?
    requires Store.CreateTag(r.tags, r.nextId, name, rule(r.tags, name, draw)) == Err(e)
    ensures Step(r, Some(name), draw, rule) == r.(failure := Some(e))
  {
  }

  /** One pass of the loop body of `findOrCreateTags` for entry `v`: the id
      it contributes, if any, or the write error that ends the loop. */
  method ResolveEntry(db: Store.Db, v: JsValue.Value, draw: Draw, ghost ids: seq<nat>)
    returns (id: Option<nat>, failure: Option<Store.DbError>)
    requires db.Valid()
    modifies db
    ensures db.Valid() && db.articles == old(db.articles)
    ensures failure.Some? ==> id.None?
    ensures Step(Resolution(old(db.tags), old(db.nextId), ids, None), TagName(v), draw, NewTagSlug)
         == Resolution(db.tags, db.nextId, if id.Some? then ids + [id.value] else ids, failure)
  {
    ghost var before := Resolution(db.tags, db.nextId, ids, None);
    if !JsValue.Truthy(v) || !v.Str? {
      StepSkips(before, draw, NewTagSlug);
      return None, None;
    }
    var trimmed := JsText.Trim(v.s);
    if trimmed == "" {
      StepSkips(before, draw, NewTagSlug);
      return None, None;
    }
    assert TagName(v) == Some(trimmed);
    var tag := Store.TagNamed(db.tags, trimmed);
    if tag.Some? {
      StepFinds(before, trimmed, draw, NewTagSlug, tag.value);
      return Some(tag.value.id), None;
    }
    var slug := SlugifyTag(trimmed, draw.now, draw.fallback);
    if Store.TagSlugUsed(db.tags, slug) {
      slug := slug + "-" + draw.suffix;
    }
    assert slug == NewTagSlug(before.tags, trimmed, draw);
    var created := db.InsertTag(trimmed, slug);
    if created.Err? {
      StepRefused(before, trimmed, draw, NewTagSlug, created.error);
      return None, Some(created.error);
    }
    StepCreates(before, trimmed, draw, NewTagSlug, created.value);
    return Some(created.value.id), None;
  }

  /** The walk over one more entry is one more step. */
  lemma ResolveAdvance(tags: seq<Store.Tag>, nextId: nat, entries: seq<Option<string>>, draws: nat -> Draw, rule: SlugRule,
                       i: nat, prev: Resolution, entry: Option<string>, next: Resolution)
    requires i < |entries| && entries[i] == entry
    requires ResolveTags(tags, nextId, entries, draws, rule, i) == prev
    requires Step(prev, entry, draws(i), rule) == next
    ensures ResolveTags(tags, nextId, entries, draws, rule, i + 1) == next
  {
  }

  /** `ResolveEntry` for entry `i` of the list, stated as one more entry of
      the walk. */
  method ResolveNext(db: Store.Db, v: JsValue.Value, ghost tags0: seq<Store.Tag>, ghost next0: nat,
                     ghost entries: seq<Option<string>>, draws: nat -> Draw, i: nat, ghost ids: seq<nat>)
    returns (id: Option<nat>, failure: Option<Store.DbError>)
    requires db.Valid() && i < |entries| && entries[i] == TagName(v)
    requires ResolveTags(tags0, next0, entries, draws, NewTagSlug, i) == Resolution(db.tags, db.nextId, ids, None)
    modifies db
    ensures db.Valid() && db.articles == old(db.articles)
    ensures ResolveTags(tags0, next0, entries, draws, NewTagSlug, i + 1)
         == Resolution(db.tags, db.nextId, if id.Some? then ids + [id.value] else ids, failure)
  {
    ghost var prev := Resolution(db.tags, db.nextId, ids, None);
    id, failure := ResolveEntry(db, v, draws(i), ids);
    ResolveAdvance(tags0, next0, entries, draws, NewTagSlug, i, prev, TagName(v),
      Resolution(db.tags, db.nextId, if id.Some? then ids + [id.value] else ids, failure));
  }

  /** `findOrCreateTags(rawTags)`: the loop over the parsed list. A refused
      create ends it with the error; the tags created before stay. */
  method FindOrCreateTags(db: Store.Db, raw: JsValue.Value, parse: JsonParser, draws: nat -> Draw)
    returns (result: Result<seq<nat>, Store.DbError>)
    requires db.Valid()
    modifies db
    ensures db.Valid() && db.articles == old(db.articles)
    ensures var entries := EntryNames(ParseRawTags(raw, parse));
      var r := ResolveTags(old(db.tags), old(db.nextId), entries, draws, NewTagSlug, |entries|);
      && db.tags == r.tags && db.nextId == r.nextId
      && (r.failure.None? ==> result == Ok(r.ids))
      && (r.failure.Some? ==> result == Err(r.failure.value))
  {
    var tagNames := ParseRawTags(raw, parse);
    ghost var entries := EntryNames(tagNames);
    ghost var tags0, next0 := db.tags, db.nextId;
    var tagIds: seq<nat> := [];
    var i := 0;
    while i < |tagNames|
      invariant 0 <= i <= |tagNames|
      invariant db.Valid() && db.articles == old(db.articles)
      invariant ResolveTags(tags0, next0, entries, draws, NewTagSlug, i) == Resolution(db.tags, db.nextId, tagIds, None)
    {
      var id, failure := ResolveNext(db, tagNames[i], tags0, next0, entries, draws, i, tagIds);
      if failure.Some? {
        FailureStops(tags0, next0, entries, draws, NewTagSlug, i + 1, |tagNames|);
        return Err(failure.value);
      }
      if id.Some? {
        tagIds := tagIds + [id.value];
      }
      i := i + 1;
    }
    return Ok(tagIds);
  }

  // ----- ensureUniqueSlug -----

  /** The `k`-th slug tried: `slug` itself, then `slug-1`, `slug-2`, ... */
  function Candidate(slug: string, k: nat): string {
    if k == 0 then slug else slug + "-" + JsText.NatToDecimal(k)
  }

  /** Different counters give different candidates. */
  lemma CandidateInjective(slug: string, j: nat, k: nat)
    requires Candidate(slug, j) == Candidate(slug, k)
    ensures j == k
  {
    if j != 0 && k != 0 {
      var dj, dk := JsText.NatToDecimal(j), JsText.NatToDecimal(k);
      assert dj == Candidate(slug, j)[|slug| + 1..];
      assert dk == Candidate(slug, k)[|slug| + 1..];
      JsText.DecimalInjective(j, k);
    }
  }

  /** What the `k`-th query compares the stored slugs with: the candidate
      cast through the `trim` setter. */
  function Probe(slug: string, k: nat): string {
    JsText.Trim(Candidate(slug, k))
  }

  /** A counted candidate ends in a digit, so the cast only trims the start
      of `slug`. */
  lemma ProbeOfCounter(slug: string, k: nat)
    requires k != 0
    ensures Probe(slug, k) == JsText.TrimStart(slug) + "-" + JsText.NatToDecimal(k)
  {
    var t := "-" + JsText.NatToDecimal(k);
    assert Candidate(slug, k) == slug + t;
    JsText.TrimBeforeWord(slug, t);
  }

  /** Different counters are looked up under different values. */
  lemma ProbeInjective(slug: string, j: nat, k: nat)
    requires Probe(slug, j) == Probe(slug, k)
    ensures j == k
  {
    var p := JsText.TrimStart(slug);
    JsText.TrimEndSpec(p);
    if j != 0 {
      ProbeOfCounter(slug, j);
    }
    if k != 0 {
      ProbeOfCounter(slug, k);
    }
    if j != 0 && k != 0 {
      assert JsText.NatToDecimal(j) == Probe(slug, j)[|p| + 1..];
      assert JsText.NatToDecimal(k) == Probe(slug, k)[|p| + 1..];
      JsText.DecimalInjective(j, k);
    }
  }

  /** `r` is `slug` when no stored slug matches it, otherwise the candidate
      with the smallest counter whose lookup finds nothing. */
  ghost predicate FirstFree(taken: set<string>, slug: string, r: string) {
    exists k: nat :: r == Candidate(slug, k) && Probe(slug, k) !in taken
      && forall j :: 0 <= j < k ==> Probe(slug, j) in taken
  }

  /** At most one string is the first free candidate. */
  lemma FirstFreeUnique(taken: set<string>, slug: string, r: string, r': string)
    requires FirstFree(taken, slug, r) && FirstFree(taken, slug, r')
    ensures r == r'
  {
    var k: nat :| r == Candidate(slug, k) && Probe(slug, k) !in taken && forall j :: 0 <= j < k ==> Probe(slug, j) in taken;
    var k': nat :| r' == Candidate(slug, k') && Probe(slug, k') !in taken && forall j :: 0 <= j < k' ==> Probe(slug, j) in taken;
  }

  /** `Probe` as a function of the counter. */
  function ProbeOf(slug: string): nat -> string {
    (k: nat) => Probe(slug, k)
  }

  ghost predicate Injective(f: nat -> string) {
    forall j: nat, k: nat :: f(j) == f(k) ==> j == k
  }

  lemma ProbeOfInjective(slug: string)
    ensures Injective(ProbeOf(slug))
  {
    forall j: nat, k: nat | ProbeOf(slug)(j) == ProbeOf(slug)(k) ensures j == k {
      ProbeInjective(slug, j, k);
    }
  }

  /** The values of `f` below `n`: for `ProbeOf(slug)`, the values of the
      first `n` lookups. */
  function Image(f: nat -> string, n: nat): set<string> {
    if n == 0 then {} else Image(f, n - 1) + {f(n - 1)}
  }

  lemma {:induction false} ImageSize(f: nat -> string, n: nat)
    requires Injective(f)
    ensures |Image(f, n)| == n
    ensures forall j :: 0 <= j < n ==> f(j) in Image(f, n)
  {
    if n > 0 {
      ImageSize(f, n - 1);
      if f(n - 1) in Image(f, n - 1) {
        ImageIn(f, n - 1, n - 1);
      }
    }
  }

  /** The members of `Image(f, n)` are the values below `n`. */
  lemma {:induction false} ImageIn(f: nat -> string, k: nat, n: nat)
    requires Injective(f) && f(k) in Image(f, n)
    ensures k < n
  {
    if n > 0 && f(k) != f(n - 1) {
      ImageIn(f, k, n - 1);
    }
  }

  lemma {:induction false} SubsetSize(a: set<string>, b: set<string>)
    requires a <= b
    ensures |a| <= |b|
  {
    if a != {} {
      var x :| x in a;
      SubsetSize(a - {x}, b - {x});
    }
  }

  /** The first candidate from the `k`-th on whose lookup finds nothing. */
  function FirstFreeFrom(taken: set<string>, slug: string, k: nat): string
    requires Image(ProbeOf(slug), k) <= taken
    decreases |taken| - k
  {
    if Probe(slug, k) !in taken then Candidate(slug, k)
    else
      ProbeOfInjective(slug);
      ImageSize(ProbeOf(slug), k + 1);
      SubsetSize(Image(ProbeOf(slug), k + 1), taken);
      FirstFreeFrom(taken, slug, k + 1)
  }

  /** One step of the search: when the first `k + 1` lookups are taken,
      `k + 1` does not exceed the number of taken slugs. */
  lemma SearchStep(taken: set<string>, slug: string, k: nat)
    requires forall j :: 0 <= j <= k ==> Probe(slug, j) in taken
    ensures k + 1 <= |taken|
  {
    ProbeOfInjective(slug);
    ImageSize(ProbeOf(slug), k + 1);
    ImageWithin(taken, slug, k + 1);
    SubsetSize(Image(ProbeOf(slug), k + 1), taken);
  }

  /** The first `n` lookups are all taken exactly when their values are. */
  lemma {:induction false} ImageWithin(taken: set<string>, slug: string, n: nat)
    requires forall j :: 0 <= j < n ==> Probe(slug, j) in taken
    ensures Image(ProbeOf(slug), n) <= taken
  {
    if n > 0 {
      ImageWithin(taken, slug, n - 1);
    }
  }

  /** The slug `ensureUniqueSlug` settles on when `taken` are the slugs of the
      other articles. */
  function UniqueSlug(taken: set<string>, slug: string): string {
    FirstFreeFrom(taken, slug, 0)
  }

  lemma {:induction false} FirstFreeFromSpec(taken: set<string>, slug: string, k: nat)
    requires Image(ProbeOf(slug), k) <= taken
    ensures FirstFree(taken, slug, FirstFreeFrom(taken, slug, k))
    decreases |taken| - k
  {
    ProbeOfInjective(slug);
    ImageSize(ProbeOf(slug), k);
    if Probe(slug, k) !in taken {
      forall j | 0 <= j < k ensures Probe(slug, j) in taken {
        assert ProbeOf(slug)(j) in Image(ProbeOf(slug), k);
      }
      assert FirstFreeFrom(taken, slug, k) == Candidate(slug, k);
    } else {
      ImageSize(ProbeOf(slug), k + 1);
      SubsetSize(Image(ProbeOf(slug), k + 1), taken);
      FirstFreeFromSpec(taken, slug, k + 1);
    }
  }

  /** The slug settled on is the first free candidate: `slug` itself when no
      other article has its trimmed form, else `slug-<n>` for the smallest
      such `n` whose trimmed form no other article has. In particular the
      setter stores a slug no other article has. */
  lemma UniqueSlugIsFirstFree(taken: set<string>, slug: string)
    ensures FirstFree(taken, slug, UniqueSlug(taken, slug))
    ensures JsText.Trim(UniqueSlug(taken, slug)) !in taken
    ensures JsText.Trim(slug) !in taken ==> UniqueSlug(taken, slug) == slug
  {
    FirstFreeFromSpec(taken, slug, 0);
  }

  /** A padded slug whose trimmed form is taken moves on to the next
      candidate, which the setter then trims at the start only. */
  lemma PaddedSlugMovesOn()
    ensures UniqueSlug({"foo"}, " foo ") == " foo -1"
    ensures JsText.Trim(" foo -1") == "foo -1"
  {
    var slug, taken := " foo ", {"foo"};
    assert JsText.TrimStart(slug) == "foo " by {
      assert slug[1..] == "foo ";
      assert JsText.TrimStart(slug) == JsText.TrimStart("foo ");
    }
    assert Probe(slug, 0) == "foo" by {
      assert "foo "[..3] == "foo";
      assert JsText.TrimEnd("foo ") == JsText.TrimEnd("foo");
    }
    ProbeOfCounter(slug, 1);
    assert JsText.NatToDecimal(1) == "1";
    assert Probe(slug, 1) == "foo -1";
    assert Candidate(slug, 1) == " foo -1";
    assert FirstFree(taken, slug, " foo -1") by {
      assert forall j :: 0 <= j < 1 ==> Probe(slug, j) in taken;
    }
    UniqueSlugIsFirstFree(taken, slug);
    FirstFreeUnique(taken, slug, UniqueSlug(taken, slug), " foo -1");
  }

  /** A search that has found the first `k` lookups taken and the `k`-th
      free settles on the `k`-th candidate. */
  lemma SearchStop(taken: set<string>, slug: string, k: nat)
    requires forall j :: 0 <= j < k ==> Probe(slug, j) in taken
    requires Probe(slug, k) !in taken
    ensures UniqueSlug(taken, slug) == Candidate(slug, k)
  {
    assert FirstFree(taken, slug, Candidate(slug, k));
    UniqueSlugIsFirstFree(taken, slug);
    FirstFreeUnique(taken, slug, UniqueSlug(taken, slug), Candidate(slug, k));
  }

  /** `await Article.findOne({ slug }, ...)` in the loop: whether an article
      other than `exclude` is found under the trimmed candidate. */
  method SlugLookup(db: Store.Db, candidate: string, exclude: Option<nat>) returns (found: bool)
    ensures found <==> Store.SlugTaken(db.articles, candidate, exclude)
  {
    found := Store.SlugTaken(db.articles, candidate, exclude);
  }

  /** One round of the search: build the `k`-th candidate and look it up. */
  method TryCandidate(db: Store.Db, slug: string, k: nat, exclude: Option<nat>) returns (candidate: string, found: bool)
    ensures candidate == Candidate(slug, k)
    ensures found <==> Probe(slug, k) in Store.TakenSlugs(db.articles, exclude)
  {
    candidate := Candidate(slug, k);
    found := SlugLookup(db, candidate, exclude);
  }

  /** `ensureUniqueSlug(slug, excludeId)`: try `slug`, `slug-1`, `slug-2`, ...
      until no article other than `exclude` is found under it. It stops
      because only finitely many slugs are taken. */
  method EnsureUniqueSlug(db: Store.Db, slug: string, exclude: Option<nat>) returns (finalSlug: string)
    ensures finalSlug == UniqueSlug(Store.TakenSlugs(db.articles, exclude), slug)
  {
    ghost var taken := Store.TakenSlugs(db.articles, exclude);
    var counter := 1;
    var found;
    finalSlug, found := TryCandidate(db, slug, 0, exclude);
    while found
      invariant counter >= 1 && finalSlug == Candidate(slug, counter - 1)
      invariant found <==> Probe(slug, counter - 1) in taken
      invariant forall j :: 0 <= j < counter - 1 ==> Probe(slug, j) in taken
      decreases |taken| - (counter - 1)
    {
      SearchStep(taken, slug, counter - 1);
      finalSlug, found := TryCandidate(db, slug, counter, exclude);
      counter := counter + 1;
    }
    SearchStop(taken, slug, counter - 1);
  }

  // ----- the handler -----

  /** The request body as the handler reads it. String fields are `None`
      when absent or `null`; `tags` is whatever was sent. */
  datatype Body = Body(
    id: Option<nat>,
    title: Option<string>,
    slug: Option<string>,
    content: Option<string>,
    summary: Option<string>,
    cover: Option<string>,
    coverImage: Option<string>,
    tags: JsValue.Value,
    isPublished: Option<bool>)

  /** `s || fallback` on an optional string. */
  function OrElse(s: Option<string>, fallback: string): (r: string)
    ensures s.Some? && s.value != "" ==> r == s.value
    ensures s.None? || s.value == "" ==> r == fallback
  {
    if s.Some? && s.value != "" then s.value else fallback
  }

  /** `s ?? fallback` on an optional string: only `null` and `undefined`
      fall back, the empty string does not. */
  function Nullish(s: Option<string>, fallback: string): (r: string)
    ensures s.Some? ==> r == s.value
    ensures s.None? ==> r == fallback
  {
    if s.Some? then s.value else fallback
  }

  /** `body.title || ''`. */
  function Title(b: Body): string {
    OrElse(b.title, "")
  }

  /** `body.cover || body.coverImage || ''`. */
  function Cover(b: Body): string {
    OrElse(b.cover, OrElse(b.coverImage, ""))
  }

  /** `body.isPublished !== false`. */
  function Published(b: Body): bool {
    b.isPublished != Some(false)
  }

  /** The slug asked for: `body.slug` when it is a non-empty string, otherwise
      the one derived from the title. */
  function RequestedSlug(b: Body): string {
    OrElse(b.slug, SlugifyTitle(Title(b)))
  }

  /** The document after the update branch has assigned its fields, each
      assignment going through the schema's setters; `newSlug` is the unique
      slug when one was asked for. */
  function Updated(a: Store.Article, b: Body, tags: seq<nat>, newSlug: Option<string>): (u: Store.Article)
    ensures u.id == a.id && u.views == a.views && u.isTop == a.isTop && u.category == a.category
    ensures u.title == JsText.Trim(Title(b)) && u.tags == tags && u.isPublished == Published(b)
    ensures newSlug.None? ==> u.slug == a.slug
    ensures newSlug.Some? ==> u.slug == JsText.Trim(newSlug.value)
    ensures b.content.None? ==> u.content == a.content
    ensures b.content.Some? ==> u.content == b.content.value
    ensures u.summary == JsText.Trim(Nullish(b.summary, a.summary))
    ensures u.coverImage == JsText.Trim(Cover(b))
  {
    a.(slug := if newSlug.Some? then JsText.Trim(newSlug.value) else a.slug,
       title := JsText.Trim(Title(b)),
       content := Nullish(b.content, a.content),
       summary := JsText.Trim(Nullish(b.summary, a.summary)),
       coverImage := JsText.Trim(Cover(b)),
       tags := tags,
       isPublished := Published(b))
  }

  /** What the create branch passes to `Article.create`. */
  function NewDraft(b: Body, tags: seq<nat>, slug: string): (d: Store.Draft)
    ensures d.title == Some(Title(b)) && d.slug == Some(slug) && d.tags == tags
    ensures d.content == Some(OrElse(b.content, "")) && d.views.None?
  {
    Store.Draft(Some(Title(b)), Some(slug), Some(OrElse(b.summary, "")), Some(OrElse(b.content, "")),
      Some(Cover(b)), tags, Some(Published(b)), None)
  }

  /** What the `try` block throws: an HTTP error it raised itself, or a
      refused database write. */
  datatype Thrown = Http(status: int, message: string) | Db(error: Store.DbError)

  /** The response: the saved document, or an error status with its message. */
  datatype Response = Saved(article: Store.Article) | Failed(status: int, message: string)

  /** The `catch` block: an error that carries a status code is rethrown as
      it is; anything else becomes a 500 with the error's message, or
      `Failed to save article` when that is empty. */
  function Respond(outcome: Result<Store.Article, Thrown>): (resp: Response)
    ensures outcome.Ok? <==> resp.Saved?
    ensures outcome.Ok? ==> resp.article == outcome.value
    ensures outcome.Err? && outcome.error.Http? ==> resp == Failed(outcome.error.status, outcome.error.message)
    ensures outcome.Err? && outcome.error.Db? ==> resp == Failed(500, Store.Message(outcome.error.error))
  {
    match outcome
    case Ok(a) => Saved(a)
    case Err(Http(status, message)) => Failed(status, message)
    case Err(Db(e)) => Failed(500, if Store.Message(e) != "" then Store.Message(e) else "Failed to save article")
  }

  /** The update branch's result: 404 when no article has the id; otherwise
      the document with its fields assigned (and the unique slug, when a slug
      was asked for), written back unless the write is refused. */
  ghost predicate UpdateOutcome(before: seq<Store.Article>, after: seq<Store.Article>, body: Body, id: nat,
                                tags: seq<nat>, outcome: Result<Store.Article, Thrown>)
  {
    match Store.ArticleWithId(before, id)
    case None => outcome == Err(Http(404, "Article not found")) && after == before
    case Some(k) =>
      var slug := RequestedSlug(body);
      var a := Updated(before[k], body, tags,
                       if slug != "" then Some(UniqueSlug(Store.TakenSlugs(before, Some(id)), slug)) else None);
      match Store.SaveArticle(before, a)
      case None => outcome == Ok(a) && after == before[k := a]
      case Some(e) => outcome == Err(Db(e)) && after == before
  }

  /** The create branch's result: the draft with the first free slug,
      appended under the next id unless the write is refused. */
  ghost predicate CreateOutcome(before: seq<Store.Article>, after: seq<Store.Article>, nextId: nat, body: Body,
                                tags: seq<nat>, outcome: Result<Store.Article, Thrown>)
  {
    var slug := UniqueSlug(Store.TakenSlugs(before, None), RequestedSlug(body));
    match Store.CreateArticle(before, nextId, NewDraft(body, tags, slug))
    case Ok(a) => outcome == Ok(a) && after == before + [a]
    case Err(e) => outcome == Err(Db(e)) && after == before
  }

  /** The `if (body.id)` branch: update the article with id `id`. */
  method UpdateBranch(db: Store.Db, body: Body, id: nat, tags: seq<nat>, slug: string)
    returns (outcome: Result<Store.Article, Thrown>)
    requires db.Valid() && slug == RequestedSlug(body)
    modifies db
    ensures db.Valid() && db.tags == old(db.tags) && db.nextId == old(db.nextId)
    ensures outcome.Ok? ==> outcome.value in db.articles
    ensures outcome.Err? && outcome.error.Http? ==> outcome.error.status == 404
    ensures UpdateOutcome(old(db.articles), db.articles, body, id, tags, outcome)
  {
    var k := Store.ArticleWithId(db.articles, id);
    if k.None? {
      return Err(Http(404, "Article not found"));
    }
    var newSlug: Option<string> := None;
    if slug != "" {
      var unique := EnsureUniqueSlug(db, slug, Some(id));
      newSlug := Some(unique);
    }
    var article := Updated(db.articles[k.value], body, tags, newSlug);
    var failure := db.Replace(k.value, article);
    if failure.Some? {
      return Err(Db(failure.value));
    }
    assert db.articles[k.value] == article;
    return Ok(article);
  }

  /** The create branch: a new article under the first free slug. */
  method CreateBranch(db: Store.Db, body: Body, tags: seq<nat>, slug: string)
    returns (outcome: Result<Store.Article, Thrown>)
    requires db.Valid() && slug == RequestedSlug(body)
    modifies db
    ensures db.Valid() && db.tags == old(db.tags)
    ensures outcome.Ok? ==> outcome.value in db.articles
    ensures outcome.Err? ==> outcome.error.Db?
    ensures CreateOutcome(old(db.articles), db.articles, old(db.nextId), body, tags, outcome)
  {
    var finalSlug := EnsureUniqueSlug(db, slug, None);
    var created := db.InsertArticle(NewDraft(body, tags, finalSlug));
    if created.Err? {
      return Err(Db(created.error));
    }
    assert db.articles[|db.articles| - 1] == created.value;
    return Ok(created.value);
  }

  /** The `try` block of `POST /api/articles/save`. Tags are resolved first
      and stay even when the request then fails. */
  method Handle(db: Store.Db, body: Body, parse: JsonParser, draws: nat -> Draw)
    returns (outcome: Result<Store.Article, Thrown>)
    requires db.Valid()
    modifies db
    ensures db.Valid()
    ensures outcome.Ok? ==> outcome.value in db.articles
    ensures outcome.Err? && outcome.error.Http? ==> outcome.error.status in {400, 404}
    ensures var entries := EntryNames(ParseRawTags(body.tags, parse));
      var r := ResolveTags(old(db.tags), old(db.nextId), entries, draws, NewTagSlug, |entries|);
      && db.tags == r.tags
      && (r.failure.Some? ==> outcome == Err(Db(r.failure.value)) && db.articles == old(db.articles))
      && (r.failure.None? && Title(body) == "" ==>
            outcome == Err(Http(400, "Title is required")) && db.articles == old(db.articles))
      && (r.failure.None? && Title(body) != "" && body.id.Some? ==>
            UpdateOutcome(old(db.articles), db.articles, body, body.id.value, r.ids, outcome))
      && (r.failure.None? && Title(body) != "" && body.id.None? ==>
            CreateOutcome(old(db.articles), db.articles, r.nextId, body, r.ids, outcome))
  {
    var tags := FindOrCreateTags(db, body.tags, parse, draws);
    if tags.Err? {
      return Err(Db(tags.error));
    }
    var coverImage := Cover(body);
    var title := Title(body);
    if title == "" {
      return Err(Http(400, "Title is required"));
    }
    var slug := OrElse(body.slug, "");
    if slug == "" && title != "" {
      slug := SlugifyTitle(title);
    }
    if body.id.Some? {
      outcome := UpdateBranch(db, body, body.id.value, tags.value, slug);
      return;
    }
    outcome := CreateBranch(db, body, tags.value, slug);
  }

  /** `POST /api/articles/save`: the `try` block and its `catch`. */
  method Save(db: Store.Db, body: Body, parse: JsonParser, draws: nat -> Draw) returns (resp: Response)
    requires db.Valid()
    modifies db
    ensures db.Valid()
    ensures resp.Failed? ==> resp.status in {400, 404, 500}
    ensures resp.Saved? ==> resp.article in db.articles
  {
    var outcome := Handle(db, body, parse, draws);
    resp := Respond(outcome);
  }

  // ----- what the handler promises -----

  /** `body.slug` is used verbatim when it is a non-empty string; otherwise
      the slug comes from the title and has the title-slug shape. */
  lemma RequestedSlugChoice(b: Body)
    ensures b.slug.Some? && b.slug.value != "" ==> RequestedSlug(b) == b.slug.value
    ensures b.slug.None? || b.slug.value == "" ==>
      RequestedSlug(b) == SlugifyTitle(Title(b))
      && forall k :: 0 <= k < |RequestedSlug(b)| ==> IsTitleSlugChar(RequestedSlug(b)[k])
  {
    SlugifyTitleShape(Title(b));
  }

  /** An update that is written back keeps the article's id, views, pin and
      category, takes the new title, tags and publication flag, keeps the old
      content and summary when the body omits them, and, when a slug was asked
      for, takes a slug no other article had. */
  lemma UpdateWritesBack(before: seq<Store.Article>, after: seq<Store.Article>, body: Body, id: nat,
                         tags: seq<nat>, outcome: Result<Store.Article, Thrown>)
    requires UpdateOutcome(before, after, body, id, tags, outcome) && outcome.Ok?
    ensures Store.ArticleWithId(before, id).Some?
    ensures var old_ := before[Store.ArticleWithId(before, id).value];
      var a := outcome.value;
      && a.id == old_.id == id && a.views == old_.views && a.isTop == old_.isTop && a.category == old_.category
      && a.title == JsText.Trim(Title(body)) && a.tags == tags
      && (a.isPublished <==> body.isPublished != Some(false))
      && (body.content.None? ==> a.content == old_.content)
      && (body.content.Some? ==> a.content == body.content.value)
      && (body.summary.None? ==> a.summary == JsText.Trim(old_.summary))
      && (body.summary.Some? ==> a.summary == JsText.Trim(body.summary.value))
      && a.coverImage == JsText.Trim(Cover(body))
      && (RequestedSlug(body) == "" ==> a.slug == old_.slug)
      && (RequestedSlug(body) != "" ==>
            var s := UniqueSlug(Store.TakenSlugs(before, Some(id)), RequestedSlug(body));
            a.slug == JsText.Trim(s) && !Store.SlugTaken(before, s, Some(id)))
  {
    var k := Store.ArticleWithId(before, id).value;
    if RequestedSlug(body) != "" {
      UniqueSlugIsFirstFree(Store.TakenSlugs(before, Some(id)), RequestedSlug(body));
    }
  }

  /** An update of an id no article has answers 404 and writes nothing. */
  lemma UpdateOfMissingArticle(before: seq<Store.Article>, after: seq<Store.Article>, body: Body, id: nat,
                               tags: seq<nat>, outcome: Result<Store.Article, Thrown>)
    requires UpdateOutcome(before, after, body, id, tags, outcome)
    requires forall k :: 0 <= k < |before| ==> before[k].id != id
    ensures outcome == Err(Http(404, "Article not found")) && after == before
  {
  }

  /** A created article gets the next id, the first free slug (trimmed),
      views 0, no pin and no category; it is published unless the body says
      exactly `false`, and the cover falls back from `cover` to `coverImage`. */
  lemma CreateDefaults(before: seq<Store.Article>, after: seq<Store.Article>, nextId: nat, body: Body,
                       tags: seq<nat>, outcome: Result<Store.Article, Thrown>)
    requires CreateOutcome(before, after, nextId, body, tags, outcome) && outcome.Ok?
    ensures var a := outcome.value;
      var s := UniqueSlug(Store.TakenSlugs(before, None), RequestedSlug(body));
      && a.id == nextId && a.slug == JsText.Trim(s) && !Store.SlugTaken(before, s, None)
      && a.views == 0 && !a.isTop && a.category.None? && a.tags == tags
      && (a.isPublished <==> body.isPublished != Some(false))
      && a.coverImage == JsText.Trim(Cover(body))
      && after == before + [a]
  {
    UniqueSlugIsFirstFree(Store.TakenSlugs(before, None), RequestedSlug(body));
  }

  /** The create branch never hits the unique slug index: the slug it
      settles on is one no stored article has once trimmed, which is the
      value the setter stores. Only a failed validation can refuse it. */
  lemma CreateNeverClashes(before: seq<Store.Article>, after: seq<Store.Article>, nextId: nat, body: Body,
                           tags: seq<nat>, outcome: Result<Store.Article, Thrown>)
    requires CreateOutcome(before, after, nextId, body, tags, outcome)
    ensures outcome != Err(Db(Store.DuplicateKey))
    ensures outcome.Err? ==> outcome == Err(Db(Store.ValidationFailed)) && after == before
  {
    UniqueSlugIsFirstFree(Store.TakenSlugs(before, None), RequestedSlug(body));
  }

  /** An update that asks for a slug never hits the unique slug index
      either: the new slug is one no other article has once trimmed. */
  lemma UpdateNeverClashes(before: seq<Store.Article>, after: seq<Store.Article>, body: Body, id: nat,
                           tags: seq<nat>, outcome: Result<Store.Article, Thrown>)
    requires UpdateOutcome(before, after, body, id, tags, outcome) && RequestedSlug(body) != ""
    ensures outcome != Err(Db(Store.DuplicateKey))
  {
    if Store.ArticleWithId(before, id).Some? {
      UniqueSlugIsFirstFree(Store.TakenSlugs(before, Some(id)), RequestedSlug(body));
    }
  }

  /** The `catch` block never turns a request error into a 500, and a write
      error always gives a 500 with a non-empty message. */
  lemma RespondKeepsStatus(outcome: Result<Store.Article, Thrown>)
    ensures outcome.Err? && outcome.error.Http? ==> Respond(outcome).status == outcome.error.status
    ensures outcome.Err? && outcome.error.Db? ==> Respond(outcome).status == 500 && Respond(outcome).message != ""
  {
  }
}
