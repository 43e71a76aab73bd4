/**
 * `POST /api/blog`: create an article from the admin editor.
 *
 * The handler derives the slug (from the title when none is given), makes
 * it unique by trying `slug`, `slug-1`, `slug-2`, ..., resolves the tag
 * names and saves a new article with `views` 0. Its `slugifyTag` and
 * `findOrCreateTags` are copies of the ones in `save.post.ts`; the unique
 * slug loop is `ensureUniqueSlug` with no excluded id.
 */
module BlogCreate {
  import opened Wrappers
  import JsText
  import JsValue
  import Store
  import SaveArticle

  /** The request body. String fields are `None` when absent or `null`
      (for `summary` the two differ in the code; see `NewDraft`); `tags` is
      whatever was sent. */
  datatype Body = Body(
    title: Option<string>,
    slug: Option<string>,
    content: Option<string>,
    summary: Option<string>,
    cover: Option<string>,
    tags: JsValue.Value)

  /** The handler's own copy of the title slug chain: lower-case, drop
      everything but word characters, white space and `-`, white-space runs
      to `-`, `-` runs collapsed, then `trim`. */
  function DerivedSlug(title: string): (slug: string)
    ensures slug == SaveArticle.SlugifyTitle(title)
  {
    var kept := JsText.Keep(JsText.Lower(title), SaveArticle.IsTitleChar);
    JsText.Trim(JsText.ReplaceRuns(JsText.ReplaceRuns(kept, JsText.IsSpace, "-"), SaveArticle.IsDash, "-"))
  }

  /** The handler's own copy of `slugifyTag`. */
  function SlugifyTag(name: string, now: nat, rand: string): (slug: string)
    ensures slug == SaveArticle.SlugifyTag(name, now, rand)
  {
    var lowered := JsText.Trim(JsText.Lower(name));
    var replaced := JsText.ReplaceRuns(lowered, SaveArticle.IsNotTagChar, "-");
    var base := SaveArticle.StripDashes(JsText.ReplaceRuns(replaced, SaveArticle.IsDash, "-"));
    if base != "" then base else "tag-" + JsText.NatToDecimal(now) + "-" + rand
  }

  /** The slug the loop starts from: `body.slug` when it is a non-empty
      string, else the slug derived from a non-empty title, else nothing
      (written `""`; no stored article has an empty slug, and a body
      without a title fails validation whatever its slug). */
  function StartSlug(b: Body): string {
    if b.slug.Some? && b.slug.value != "" then b.slug.value
    else if b.title.Some? && b.title.value != "" then DerivedSlug(b.title.value)
    else ""
  }

  /** What `new Article({...})` receives: the body's title, content and
      summary as sent, the unique slug, the resolved tags and `views: 0`.
      A `null` summary is read as an absent one and so gets the `''`
      default, where the code would store `null`.
      `cover` is not a schema path, so the strict schema drops it and the
      cover image keeps its default. */
  function NewDraft(b: Body, tags: seq<nat>, slug: string): Store.Draft {
    Store.Draft(b.title, Some(slug), b.summary, b.content, None, tags, None, Some(0))
  }

  /** The result of `article.save()` on the draft with the unique slug. */
  ghost predicate Created(before: seq<Store.Article>, after: seq<Store.Article>, nextId: nat, body: Body,
                          tags: seq<nat>, outcome: Result<Store.Article, Store.DbError>)
  {
    var slug := SaveArticle.UniqueSlug(Store.TakenSlugs(before, None), StartSlug(body));
    match Store.CreateArticle(before, nextId, NewDraft(body, tags, slug))
    case Ok(a) => outcome == Ok(a) && after == before + [a]
    case Err(e) => outcome == Err(e) && after == before
  }

  /** The `try` block of `POST /api/blog`. The slug is made unique before
      the tags are resolved; tags created before a failure stay. */
  method Handle(db: Store.Db, body: Body, parse: SaveArticle.JsonParser, draws: nat -> SaveArticle.Draw)
    returns (outcome: Result<Store.Article, Store.DbError>)
    requires db.Valid()
    modifies db
    ensures db.Valid()
    ensures outcome.Ok? ==> outcome.value in db.articles
    ensures var entries := SaveArticle.EntryNames(SaveArticle.ParseRawTags(body.tags, parse));
      var r := SaveArticle.ResolveTags(old(db.tags), old(db.nextId), entries, draws, SaveArticle.NewTagSlug, |entries|);
      && db.tags == r.tags
      && (r.failure.Some? ==> outcome == Err(r.failure.value) && db.articles == old(db.articles))
      && (r.failure.None? ==> Created(old(db.articles), db.articles, r.nextId, body, r.ids, outcome))
  {
    var slug := body.slug.GetOr("");
    if slug == "" && body.title.Some? && body.title.value != "" {
      slug := DerivedSlug(body.title.value);
    }
    assert slug == StartSlug(body);
    var finalSlug := SaveArticle.EnsureUniqueSlug(db, slug, None);
    ghost var articles0 := db.articles;
    var tags := SaveArticle.FindOrCreateTags(db, body.tags, parse, draws);
    if tags.Err? {
      return Err(tags.error);
    }
    ghost var nextId := db.nextId;
    var created := db.InsertArticle(NewDraft(body, tags.value, finalSlug));
    assert created == Store.CreateArticle(articles0, nextId, NewDraft(body, tags.value, finalSlug));
    if created.Err? {
      return Err(created.error);
    }
    assert db.articles[|db.articles| - 1] == created.value;
    return Ok(created.value);
  }

  /** The `catch` block: a duplicate key (code 11000) is reported as a slug
      clash with 400; anything else is a 500 with the error's message, or
      `Failed to create article` when that is empty. */
  function Respond(outcome: Result<Store.Article, Store.DbError>): (resp: SaveArticle.Response)
    ensures outcome.Ok? <==> resp.Saved?
    ensures outcome.Ok? ==> resp.article == outcome.value
    ensures outcome.Err? && Store.Code(outcome.error) == 11000 ==>
      resp == SaveArticle.Failed(400, "Article with this slug already exists")
    ensures outcome.Err? && Store.Code(outcome.error) != 11000 ==>
      resp == SaveArticle.Failed(500, Store.Message(outcome.error))
  {
    match outcome
    case Ok(a) => SaveArticle.Saved(a)
    case Err(e) =>
      if Store.Code(e) == 11000 then SaveArticle.Failed(400, "Article with this slug already exists")
      else SaveArticle.Failed(500, if Store.Message(e) != "" then Store.Message(e) else "Failed to create article")
  }

  /** `POST /api/blog`: the `try` block and its `catch`. */
  method Create(db: Store.Db, body: Body, parse: SaveArticle.JsonParser, draws: nat -> SaveArticle.Draw)
    returns (resp: SaveArticle.Response)
    requires db.Valid()
    modifies db
    ensures db.Valid()
    ensures resp.Saved? ==> resp.article in db.articles && resp.article.views == 0
    ensures resp.Failed? ==> resp.status in {400, 500} && resp.message != ""
  {
    var outcome := Handle(db, body, parse, draws);
    resp := Respond(outcome);
  }

  // ----- what the handler promises -----

  /** `body.slug` is used verbatim when it is a non-empty string; otherwise a
      non-empty title gives the same slug `slugifyTitle` would, made of
      `[a-z0-9_-]` only. */
  lemma StartSlugChoice(b: Body)
    ensures b.slug.Some? && b.slug.value != "" ==> StartSlug(b) == b.slug.value
    ensures (b.slug.None? || b.slug.value == "") && b.title.Some? && b.title.value != "" ==>
      StartSlug(b) == SaveArticle.SlugifyTitle(b.title.value)
      && forall k :: 0 <= k < |StartSlug(b)| ==> SaveArticle.IsTitleSlugChar(StartSlug(b)[k])
  {
    if b.title.Some? {
      SaveArticle.SlugifyTitleShape(b.title.value);
    }
  }

  /** A created article has the next id, the first free slug among the
      stored ones (trimmed by the setter), `views` 0, no pin, no category,
      no cover image, is published, and holds the resolved tags. */
  lemma CreatedDefaults(before: seq<Store.Article>, after: seq<Store.Article>, nextId: nat, body: Body,
                        tags: seq<nat>, outcome: Result<Store.Article, Store.DbError>)
    requires Created(before, after, nextId, body, tags, outcome) && outcome.Ok?
    ensures var a := outcome.value;
      var s := SaveArticle.UniqueSlug(Store.TakenSlugs(before, None), StartSlug(body));
      && a.id == nextId && a.slug == JsText.Trim(s) && !Store.SlugTaken(before, s, None)
      && (!Store.SlugTaken(before, StartSlug(body), None) ==> s == StartSlug(body))
      && a.views == 0 && !a.isTop && a.isPublished && a.category.None? && a.coverImage == ""
      && a.tags == tags && after == before + [a]
  {
    SaveArticle.UniqueSlugIsFirstFree(Store.TakenSlugs(before, None), StartSlug(body));
    JsText.TrimIdentity("");
  }

  /** The article write never hits the unique slug index: the slug the
      loop settles on is one no stored article has once trimmed. A 400
      "Article with this slug already exists" can therefore only come from
      `Tag.create` in the tag loop. */
  lemma CreatedNeverClashes(before: seq<Store.Article>, after: seq<Store.Article>, nextId: nat, body: Body,
                            tags: seq<nat>, outcome: Result<Store.Article, Store.DbError>)
    requires Created(before, after, nextId, body, tags, outcome)
    ensures outcome != Err(Store.DuplicateKey)
    ensures outcome.Err? ==> outcome == Err(Store.ValidationFailed) && after == before
  {
    SaveArticle.UniqueSlugIsFirstFree(Store.TakenSlugs(before, None), StartSlug(body));
  }

  /** Without a title, or with one that is only white space, or without
      content, the save fails validation and nothing is written. */
  lemma MissingTitleOrContentFails(before: seq<Store.Article>, after: seq<Store.Article>, nextId: nat, body: Body,
                                   tags: seq<nat>, outcome: Result<Store.Article, Store.DbError>)
    requires Created(before, after, nextId, body, tags, outcome)
    requires body.title.None? || JsText.Trim(body.title.value) == "" || body.content.GetOr("") == ""
    ensures outcome == Err(Store.ValidationFailed) && after == before
    ensures Respond(outcome).status == 500
  {
    JsText.TrimIdentity("");
  }

  /** Every refused write with code 11000 is reported as a slug clash, the
      one from `Tag.create` in the tag loop included. */
  lemma TagClashReportedAsSlugClash(outcome: Result<Store.Article, Store.DbError>)
    requires outcome == Err(Store.DuplicateKey)
    ensures Respond(outcome) == SaveArticle.Failed(400, "Article with this slug already exists")
  {
  }
}
