/**
 * The two MongoDB collections the article handlers write, `articles` and
 * `tags`, with the parts of their Mongoose schemas that decide whether a
 * write succeeds: the `trim` and `lowercase` setters, the `required`
 * validators (an empty string fails them), the defaults, and the unique
 * index on `slug` (a clash is MongoDB error 11000).
 *
 * Documents are kept in insertion order, which is the order `findOne`
 * scans them in. Object ids come from one counter shared by both
 * collections.
 */
module Store {
  import opened Wrappers
  import JsText

  datatype Tag = Tag(id: nat, name: string, slug: string)

  datatype Article = Article(
    id: nat,
    title: string,
    slug: string,
    summary: string,
    content: string,
    coverImage: string,
    category: Option<nat>,
    tags: seq<nat>,
    views: int,
    isTop: bool,
    isPublished: bool)

  /** Why a write was refused: a duplicate key on a unique index (code
      11000) or a failed `required` validator. */
  datatype DbError = DuplicateKey | ValidationFailed

  /** The MongoDB error code a refused write carries (0: none, a Mongoose
      validation error). */
  function Code(e: DbError): (c: int)
    ensures c == 11000 <==> e == DuplicateKey
  {
    match e
    case DuplicateKey => 11000
    case ValidationFailed => 0
  }

  /** The error's `message`; both kinds carry a non-empty one. */
  function Message(e: DbError): (m: string)
    ensures m != ""
  {
    match e
    case DuplicateKey => "E11000 duplicate key error"
    case ValidationFailed => "Validation failed"
  }

  // ----- tags -----

  /** `Tag.findOne({ name })`: the first tag with exactly this name. */
  function TagNamed(tags: seq<Tag>, name: string): (r: Option<Tag>)
    ensures r.Some? ==> r.value in tags && r.value.name == name
    ensures r.None? <==> forall k :: 0 <= k < |tags| ==> tags[k].name != name
  {
    if tags == [] then None
    else if tags[0].name == name then Some(tags[0])
    else TagNamed(tags[1..], name)
  }

  /** `TagNamed` finds the first match: no earlier tag has the name. */
  lemma {:induction false} TagNamedIsFirst(tags: seq<Tag>, name: string)
    requires TagNamed(tags, name).Some?
    ensures exists p :: (0 <= p < |tags| && tags[p] == TagNamed(tags, name).value
                          && forall q :: 0 <= q < p ==> tags[q].name != name)
  {
    if tags[0].name != name {
      TagNamedIsFirst(tags[1..], name);
      var p :| 0 <= p < |tags[1..]| && tags[1..][p] == TagNamed(tags[1..], name).value
        && forall q :: 0 <= q < p ==> tags[1..][q].name != name;
      assert tags[p + 1] == TagNamed(tags, name).value;
      forall q | 0 <= q < p + 1 ensures tags[q].name != name {
        if q > 0 {
          assert tags[q] == tags[1..][q - 1];
        }
      }
    } else {
      assert tags[0] == TagNamed(tags, name).value;
    }
  }

  /** Appending tags does not change what a lookup by a name already present finds. */
  lemma {:induction false} TagNamedAppend(tags: seq<Tag>, more: seq<Tag>, name: string)
    ensures TagNamed(tags, name).Some? ==> TagNamed(tags + more, name) == TagNamed(tags, name)
    ensures TagNamed(tags, name).None? ==> TagNamed(tags + more, name) == TagNamed(more, name)
  {
    if tags == [] {
      assert tags + more == more;
    } else {
      assert (tags + more)[1..] == tags[1..] + more;
      TagNamedAppend(tags[1..], more, name);
    }
  }

  /** `Tag.findOne({ slug })` found something. */
  predicate TagSlugUsed(tags: seq<Tag>, slug: string) {
    exists k :: 0 <= k < |tags| && tags[k].slug == slug
  }

  /** `Tag.create({ name, slug })`: the setters trim the name and trim and
      lower-case the slug; both are required; the slug index is unique. */
  function CreateTag(tags: seq<Tag>, id: nat, name: string, slug: string): (r: Result<Tag, DbError>)
    ensures r.Ok? ==> (r.value.id == id && r.value.name == JsText.Trim(name)
                       && r.value.slug == JsText.Lower(JsText.Trim(slug))
                       && r.value.name != "" && r.value.slug != "" && !TagSlugUsed(tags, r.value.slug))
    ensures r == Err(DuplicateKey) <==>
      JsText.Trim(name) != "" && JsText.Trim(slug) != "" && TagSlugUsed(tags, JsText.Lower(JsText.Trim(slug)))
  {
    var n, s := JsText.Trim(name), JsText.Lower(JsText.Trim(slug));
    if n == "" || s == "" then Err(ValidationFailed)
    else if TagSlugUsed(tags, s) then Err(DuplicateKey)
    else Ok(Tag(id, n, s))
  }

  // ----- articles -----

  /** Some article other than `exclude` stores exactly this slug: what the
      unique index on `slug` compares a written value with. */
  predicate SlugUsed(articles: seq<Article>, slug: string, exclude: Option<nat>) {
    exists k :: 0 <= k < |articles| && articles[k].slug == slug && Some(articles[k].id) != exclude
  }

  /** `Article.findOne({ slug })`, or with `_id: { $ne: exclude }` when an id
      is excluded, finds an article. Mongoose casts the filter value through
      the path's `trim` setter, so the stored slugs are compared with the
      trimmed value. */
  predicate SlugTaken(articles: seq<Article>, slug: string, exclude: Option<nat>) {
    SlugUsed(articles, JsText.Trim(slug), exclude)
  }

  /** The slugs stored by the articles other than `exclude`; a query for `s`
      finds one of them exactly when `trim(s)` is among them. */
  function TakenSlugs(articles: seq<Article>, exclude: Option<nat>): (taken: set<string>)
    ensures forall s :: s in taken <==> SlugUsed(articles, s, exclude)
    ensures forall s :: SlugTaken(articles, s, exclude) <==> JsText.Trim(s) in taken
  {
    set k | 0 <= k < |articles| && Some(articles[k].id) != exclude :: articles[k].slug
  }

  /** `Article.findById(id)`: the position of the first article, in the
      collection's natural order, with this id. This is a query on the
      collection, unlike the `Map` lookup of the metadata tallies; with
      distinct ids (`Db.Valid`) the first match is the only one. */
  function ArticleWithId(articles: seq<Article>, id: nat): (r: Option<nat>)
    ensures r.Some? ==> r.value < |articles| && articles[r.value].id == id
    ensures r.Some? ==> forall k :: 0 <= k < r.value ==> articles[k].id != id
    ensures r.None? <==> forall k :: 0 <= k < |articles| ==> articles[k].id != id
  {
    ArticleFrom(articles, id, 0)
  }

  /** The scan of `findById` from position `i` on. */
  function ArticleFrom(articles: seq<Article>, id: nat, i: nat): (r: Option<nat>)
    requires i <= |articles|
    ensures r.Some? ==> i <= r.value < |articles| && articles[r.value].id == id
    ensures r.Some? ==> forall k :: i <= k < r.value ==> articles[k].id != id
    ensures r.None? <==> forall k :: i <= k < |articles| ==> articles[k].id != id
    decreases |articles| - i
  {
    if i == |articles| then None
    else if articles[i].id == id then Some(i)
    else ArticleFrom(articles, id, i + 1)
  }

  /** The fields a new article is created from; `None` is `undefined`. */
  datatype Draft = Draft(
    title: Option<string>,
    slug: Option<string>,
    summary: Option<string>,
    content: Option<string>,
    coverImage: Option<string>,
    tags: seq<nat>,
    isPublished: Option<bool>,
    views: Option<int>)

  /** The `required` validators: title, slug and content must be non-empty
      once the setters have run. */
  predicate Complete(a: Article) {
    a.title != "" && a.slug != "" && a.content != ""
  }

  /** The document Mongoose builds from a draft: setters applied, defaults
      filled in (`summary` and `coverImage` `''`, no category, `views` 0,
      `isTop` false, `isPublished` true). */
  function Build(id: nat, d: Draft): Article {
    Article(id,
      JsText.Trim(d.title.GetOr("")),
      JsText.Trim(d.slug.GetOr("")),
      JsText.Trim(d.summary.GetOr("")),
      d.content.GetOr(""),
      JsText.Trim(d.coverImage.GetOr("")),
      None, d.tags, d.views.GetOr(0), false, d.isPublished.GetOr(true))
  }

  /** `Article.create(draft)` / `new Article(draft).save()`: validation
      first, then the unique slug index. */
  function CreateArticle(articles: seq<Article>, id: nat, d: Draft): (r: Result<Article, DbError>)
    ensures r.Ok? ==> r.value == Build(id, d) && Complete(r.value) && !SlugUsed(articles, r.value.slug, None)
    ensures r == Err(DuplicateKey) <==> Complete(Build(id, d)) && SlugUsed(articles, Build(id, d).slug, None)
    ensures r == Err(ValidationFailed) <==> !Complete(Build(id, d))
  {
    var a := Build(id, d);
    if !Complete(a) then Err(ValidationFailed)
    else if SlugUsed(articles, a.slug, None) then Err(DuplicateKey)
    else Ok(a)
  }

  /** `article.save()` on an existing document: validation, then the slug
      must not clash with another article's. */
  function SaveArticle(articles: seq<Article>, a: Article): (r: Option<DbError>)
    ensures r.None? <==> Complete(a) && !SlugUsed(articles, a.slug, Some(a.id))
    ensures r == Some(DuplicateKey) <==> Complete(a) && SlugUsed(articles, a.slug, Some(a.id))
  {
    if !Complete(a) then Some(ValidationFailed)
    else if SlugUsed(articles, a.slug, Some(a.id)) then Some(DuplicateKey)
    else None
  }

  /** The database: both collections and the object-id counter. */
  class Db {
    var articles: seq<Article>
    var tags: seq<Tag>
    var nextId: nat

    /** Every id was handed out by the counter; article ids are distinct;
        the unique indexes hold; every stored article passed validation. */
    ghost predicate Valid()
      reads this
    {
      && (forall k :: 0 <= k < |articles| ==> Complete(articles[k]))
      && (forall k :: 0 <= k < |articles| ==> articles[k].id < nextId)
      && (forall k :: 0 <= k < |tags| ==> tags[k].id < nextId)
      && (forall k, l :: 0 <= k < l < |articles| ==> articles[k].id != articles[l].id)
      && (forall k, l :: 0 <= k < l < |articles| ==> articles[k].slug != articles[l].slug)
      && (forall k, l :: 0 <= k < l < |tags| ==> tags[k].slug != tags[l].slug)
    }

    constructor ()
      ensures Valid() && articles == [] && tags == [] && nextId == 0
    {
      articles := [];
      tags := [];
      nextId := 0;
    }

    /** `Tag.create`: on success the tag is appended under a fresh id. */
    method InsertTag(name: string, slug: string) returns (r: Result<Tag, DbError>)
      requires Valid()
      modifies this
      ensures Valid() && articles == old(articles)
      ensures r == CreateTag(old(tags), old(nextId), name, slug)
      ensures r.Ok? ==> tags == old(tags) + [r.value] && nextId == old(nextId) + 1
      ensures r.Err? ==> tags == old(tags) && nextId == old(nextId)
    {
      r := CreateTag(tags, nextId, name, slug);
      if r.Ok? {
        tags := tags + [r.value];
        nextId := nextId + 1;
      }
    }

    /** `Article.create`: on success the article is appended under a fresh id. */
    method InsertArticle(d: Draft) returns (r: Result<Article, DbError>)
      requires Valid()
      modifies this
      ensures Valid() && tags == old(tags)
      ensures r == CreateArticle(old(articles), old(nextId), d)
      ensures r.Ok? ==> articles == old(articles) + [r.value] && nextId == old(nextId) + 1
      ensures r.Err? ==> articles == old(articles) && nextId == old(nextId)
    {
      r := CreateArticle(articles, nextId, d);
      if r.Ok? {
        articles := articles + [r.value];
        nextId := nextId + 1;
      }
    }

    /** `article.save()` for the article at position `k`, which keeps its id. */
    method Replace(k: nat, a: Article) returns (r: Option<DbError>)
      requires Valid() && k < |articles| && a.id == articles[k].id
      modifies this
      ensures Valid() && tags == old(tags) && nextId == old(nextId)
      ensures r == SaveArticle(old(articles), a)
      ensures r.None? ==> articles == old(articles)[k := a]
      ensures r.Some? ==> articles == old(articles)
    {
      r := SaveArticle(articles, a);
      if r.None? {
        articles := articles[k := a];
        forall i, j | 0 <= i < j < |articles| ensures articles[i].slug != articles[j].slug {
          if i == k {
            assert Some(articles[j].id) != Some(a.id);
          } else if j == k {
            assert Some(articles[i].id) != Some(a.id);
          }
        }
      }
    }
  }
}
