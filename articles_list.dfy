/**
 * `GET /api/articles`: the published articles, newest first, either as a
 * light archive, as a plain array, or as one page of a paginated answer,
 * optionally restricted to one category and one tag given by slug.
 *
 * The database is an input: the category and tag collections are sequences
 * searched by slug, and the article queries (count, find with an optional
 * skip/limit window, the archive query) are functions from the filter to
 * what the query returned or the message of what it threw. Sorting,
 * `select` and `populate` happen inside those queries.
 */
module ArticlesList {
  import opened Wrappers
  import JsText
  import Lean
  import ToVM

  /** The query string values the handler reads; `None` when absent. */
  datatype Query = Query(
    mode: Option<string>,
    category: Option<string>,
    tag: Option<string>,
    page: Option<string>,
    limit: Option<string>)

  /** A category or tag document, as far as the slug lookup needs it. */
  datatype Term = Term(id: nat, slug: string)

  /** `{ isPublished: true }` with the optional `category` and `tags` ids. */
  datatype Filter = Filter(category: Option<nat>, tag: Option<nat>)

  /** The whole result, or the page `.skip(skip).limit(limit)` selects. */
  datatype Window = All | Slice(skip: int, limit: int)

  /** The database as the handler sees it. */
  datatype Source = Source(
    categories: seq<Term>,
    tags: seq<Term>,
    archive: Result<seq<Lean.Doc>, string>,
    count: Filter -> Result<nat, string>,
    find: (Filter, Window) -> Result<seq<Lean.Doc>, string>)

  /** A category or tag in an item; `id` is `None` where `String(_id)` of an
      object without `_id` gives `"undefined"`. */
  datatype ItemRef = ItemRef(id: Option<nat>, name: string, slug: string)

  /** One mapped article; dates are instants. */
  datatype Item = Item(
    id: nat,
    title: string,
    slug: string,
    summary: string,
    coverImage: string,
    publishedAt: nat,
    views: int,
    isTop: bool,
    isPublished: bool,
    category: Option<ItemRef>,
    tags: seq<ItemRef>,
    createdAt: nat,
    updatedAt: nat)

  /** One archive entry. */
  datatype ArchiveEntry = ArchiveEntry(title: string, slug: string, publishedAt: nat)

  /** The three shapes of a successful answer. */
  datatype Listing =
    | Archive(entries: seq<ArchiveEntry>)
    | Plain(items: seq<Item>)
    | Paged(items: seq<Item>, total: nat, page: int, limit: int, totalPages: int)

  /** The error the handler throws. */
  datatype Failure = Failure(status: int, message: string)

  /** The message a `TypeError` from reading `_id` of a `null` tag carries. */
  const NullTagMessage := "Cannot read properties of null (reading '_id')"

  /** A query value used in a condition: present and not `''`. */
  predicate Truthy(s: Option<string>) {
    s.Some? && s.value != ""
  }

  /** `parseInt(query.page) || 1`. */
  function Page(q: Query): (page: int)
    ensures JsText.ParseQuery(q.page) in {None, Some(0)} ==> page == 1
    ensures JsText.ParseQuery(q.page) !in {None, Some(0)} ==> Some(page) == JsText.ParseQuery(q.page)
  {
    JsText.OrDefault(JsText.ParseQuery(q.page), 1)
  }

  /** `query.limit ? parseInt(query.limit) : undefined`, as the handler uses
      it: every later test is `if (limit)`, so `undefined`, `NaN` and `0`
      all mean "no limit" (`None`). */
  function Limit(q: Query): (limit: Option<int>)
    ensures limit.None? <==> !Truthy(q.limit) || JsText.ParseInt(q.limit.value) in {None, Some(0)}
    ensures limit.Some? ==> limit.value != 0 && JsText.ParseInt(q.limit.value) == limit
  {
    if !Truthy(q.limit) then None
    else
      var n := JsText.ParseInt(q.limit.value);
      if n.None? || n.value == 0 then None else n
  }

  /** `Category.findOne({ slug })` / `Tag.findOne({ slug })`: the id of the
      first document with the slug. */
  function FindBySlug(terms: seq<Term>, slug: string): (id: Option<nat>)
    ensures id.None? <==> forall k :: 0 <= k < |terms| ==> terms[k].slug != slug
  {
    if terms == [] then None
    else if terms[0].slug == slug then Some(terms[0].id)
    else
      assert forall k :: 1 <= k < |terms| ==> terms[k] == terms[1..][k - 1];
      FindBySlug(terms[1..], slug)
  }

  /** The id found is that of the first document with the slug. */
  lemma {:induction false} FindBySlugFirst(terms: seq<Term>, slug: string)
    requires FindBySlug(terms, slug).Some?
    ensures exists k :: 0 <= k < |terms| && terms[k].slug == slug && terms[k].id == FindBySlug(terms, slug).value
                        && forall j :: 0 <= j < k ==> terms[j].slug != slug
  {
    if terms[0].slug != slug {
      var rest := terms[1..];
      FindBySlugFirst(rest, slug);
      var k :| 0 <= k < |rest| && rest[k].slug == slug && rest[k].id == FindBySlug(rest, slug).value
               && forall j :: 0 <= j < k ==> rest[j].slug != slug;
      assert terms[k + 1] == rest[k];
      forall j | 0 <= j < k + 1 ensures terms[j].slug != slug {
        if j > 0 { assert terms[j] == rest[j - 1]; }
      }
    }
  }

  /** The value `Category.findOne({ slug })` and `Tag.findOne({ slug })`
      compare the stored slugs with: Mongoose casts the filter through the
      path's `trim` and `lowercase` setters. */
  function SlugFilter(slug: string): string {
    JsText.Lower(JsText.Trim(slug))
  }

  /** The cast value is its own cast, and a slug without white space or
      upper-case letters is looked up as it is. */
  lemma SlugFilterCanonical(slug: string)
    ensures JsText.Trim(SlugFilter(slug)) == SlugFilter(slug)
    ensures JsText.Lower(SlugFilter(slug)) == SlugFilter(slug)
    ensures (forall k :: 0 <= k < |slug| ==> !JsText.IsSpace(slug[k]) && !JsText.IsAsciiUpper(slug[k])) ==>
      SlugFilter(slug) == slug
  {
    var t := JsText.Trim(slug);
    JsText.TrimSpec(slug);
    JsText.LowerIdempotent(t);
    var v := JsText.Lower(t);
    assert v == [] || (!JsText.IsSpace(v[0]) && !JsText.IsSpace(v[|v| - 1]));
    JsText.TrimKeepsTrimmed(v);
    if forall k :: 0 <= k < |slug| ==> !JsText.IsSpace(slug[k]) && !JsText.IsAsciiUpper(slug[k]) {
      JsText.TrimIdentity(slug);
      JsText.LowerIdentity(slug);
    }
  }

  /** The filter the handler builds, or `None` when a requested category or
      tag slug matches no document. */
  function Resolve(q: Query, src: Source): (f: Option<Filter>)
    ensures f.None? <==>
      (Truthy(q.category) && FindBySlug(src.categories, SlugFilter(q.category.value)).None?)
      || (Truthy(q.tag) && FindBySlug(src.tags, SlugFilter(q.tag.value)).None?)
    ensures f.Some? ==> (f.value.category.Some? <==> Truthy(q.category)) && (f.value.tag.Some? <==> Truthy(q.tag))
    ensures f.Some? && Truthy(q.category) ==> f.value.category == FindBySlug(src.categories, SlugFilter(q.category.value))
    ensures f.Some? && Truthy(q.tag) ==> f.value.tag == FindBySlug(src.tags, SlugFilter(q.tag.value))
  {
    var category := if Truthy(q.category) then FindBySlug(src.categories, SlugFilter(q.category.value)) else None;
    var tag := if Truthy(q.tag) then FindBySlug(src.tags, SlugFilter(q.tag.value)) else None;
    if (Truthy(q.category) && category.None?) || (Truthy(q.tag) && tag.None?) then None
    else Some(Filter(category, tag))
  }

  /** The answer to a category or tag slug that matches nothing. */
  function Empty(limit: Option<int>): (l: Listing)
    ensures l.Paged? && l.items == [] && l.total == 0 && l.page == 1 && l.totalPages == 0
    ensures l.limit == if limit.Some? then limit.value else 0
  {
    Paged([], 0, 1, limit.GetOr(0), 0)
  }

  /** The archive map: title and slug default to `''`, a missing date to now. */
  function ArchiveEntries(docs: seq<Lean.Doc>, now: nat): (entries: seq<ArchiveEntry>)
    ensures |entries| == |docs|
    ensures forall k :: 0 <= k < |docs| ==>
      && (docs[k].title.Some? ==> entries[k].title == docs[k].title.value)
      && (docs[k].title.None? ==> entries[k].title == "")
      && (docs[k].slug.Some? ==> entries[k].slug == docs[k].slug.value)
      && (docs[k].slug.None? ==> entries[k].slug == "")
      && entries[k].publishedAt == docs[k].publishedAt.GetOr(now)
  {
    seq(|docs|, k requires 0 <= k < |docs| =>
      ArchiveEntry(Lean.OrEmpty(docs[k].title), Lean.OrEmpty(docs[k].slug), Lean.OrNow(docs[k].publishedAt, now)))
  }

  /** The category of an item: `null` for a missing one, otherwise its id
      (which may be missing) with name and slug defaulted. */
  function CategoryOf(c: Option<Lean.Ref>): (r: Option<ItemRef>)
    ensures r.Some? <==> c.Some?
    ensures r.Some? ==> r.value.id == c.value.id
    ensures r.Some? && c.value.name.Some? ==> r.value.name == c.value.name.value
    ensures r.Some? && c.value.name.None? ==> r.value.name == ""
    ensures r.Some? && c.value.slug.Some? ==> r.value.slug == c.value.slug.value
    ensures r.Some? && c.value.slug.None? ==> r.value.slug == ""
  {
    match c
    case None => None
    case Some(ref) => Some(ItemRef(ref.id, Lean.OrEmpty(ref.name), Lean.OrEmpty(ref.slug)))
  }

  /** The tags of an item: `[]` when the field is not an array; a `null`
      entry makes `tag._id` throw. */
  function TagsOf(tags: Lean.RefList): (r: Result<seq<ItemRef>, string>)
    ensures tags.NotArray? ==> r == Ok([])
    ensures r.Err? <==> tags.Items? && exists k :: 0 <= k < |tags.items| && tags.items[k].None?
    ensures r.Err? ==> r.error == NullTagMessage
    ensures r.Ok? && tags.Items? ==>
      && |r.value| == |tags.items|
      && forall k :: 0 <= k < |tags.items| ==>
           && r.value[k].id == tags.items[k].value.id
           && r.value[k].name == tags.items[k].value.name.GetOr("")
           && r.value[k].slug == tags.items[k].value.slug.GetOr("")
  {
    match tags
    case NotArray => Ok([])
    case Items(items) =>
      if exists k :: 0 <= k < |items| && items[k].None? then Err(NullTagMessage)
      else Ok(seq(|items|, k requires 0 <= k < |items| =>
        ItemRef(items[k].value.id, Lean.OrEmpty(items[k].value.name), Lean.OrEmpty(items[k].value.slug))))
  }

  /** The `map` callback for one article. */
  function MapItem(d: Lean.Doc, now: nat): (r: Result<Item, string>)
    ensures r.Err? <==> TagsOf(d.tags).Err?
    ensures r.Ok? ==> r.value.category == CategoryOf(d.category) && r.value.tags == TagsOf(d.tags).value
  {
    match TagsOf(d.tags)
    case Err(e) => Err(e)
    case Ok(tags) =>
      Ok(Item(d.id, Lean.OrEmpty(d.title), Lean.OrEmpty(d.slug), Lean.OrEmpty(d.summary), Lean.OrEmpty(d.coverImage),
              Lean.OrNow(d.publishedAt, now), Lean.OrZero(d.views), d.isTop.GetOr(false), d.isPublished != Some(false),
              CategoryOf(d.category), tags, Lean.OrNow(d.createdAt, now), Lean.OrNow(d.updatedAt, now)))
  }

  /** `articles.map(...)`: the first failing article makes the whole map throw. */
  function MapItems(docs: seq<Lean.Doc>, now: nat): (r: Result<seq<Item>, string>)
    ensures r.Ok? <==> forall k :: 0 <= k < |docs| ==> MapItem(docs[k], now).Ok?
    ensures r.Ok? ==> |r.value| == |docs| && forall k :: 0 <= k < |docs| ==> MapItem(docs[k], now) == Ok(r.value[k])
  {
    if docs == [] then Ok([])
    else
      match MapItems(docs[..|docs| - 1], now)
      case Err(e) => Err(e)
      case Ok(init) =>
        match MapItem(docs[|docs| - 1], now)
        case Err(e) => Err(e)
        case Ok(last) => Ok(init + [last])
  }

  /** The `catch` block. */
  function Fail(message: string): (f: Failure)
    ensures f.status == 500 && f.message != ""
    ensures message != "" ==> f.message == message
  {
    Failure(500, if message != "" then message else "Failed to fetch articles")
  }

  /** The filter-building part of the handler: the filter starts as
      "published" and gains the category and tag ids one after the other;
      a slug that matches nothing ends the request early (`None`). */
  method BuildFilter(q: Query, src: Source) returns (filter: Option<Filter>)
    ensures filter == Resolve(q, src)
  {
    var f := Filter(None, None);
    if Truthy(q.category) {
      var id := FindBySlug(src.categories, SlugFilter(q.category.value));
      if id.None? {
        return None;
      }
      f := f.(category := id);
    }
    if Truthy(q.tag) {
      var id := FindBySlug(src.tags, SlugFilter(q.tag.value));
      if id.None? {
        return None;
      }
      f := f.(tag := id);
    }
    return Some(f);
  }

  /** The handler. The filter starts as "published" and gains the category
      and tag ids one after the other; the query gains its window only when
      there is a limit. */
  method Handle(q: Query, src: Source, now: nat) returns (r: Result<Listing, Failure>)
    ensures r.Err? ==> r.error.status == 500 && r.error.message != ""
    ensures q.mode == Some("archive") ==>
      && (src.archive.Ok? ==> r == Ok(Archive(ArchiveEntries(src.archive.value, now))))
      && (src.archive.Err? ==> r == Err(Fail(src.archive.error)))
    ensures q.mode != Some("archive") && Resolve(q, src).None? ==> r == Ok(Empty(Limit(q)))
    ensures q.mode != Some("archive") && Resolve(q, src).Some? ==>
      var filter := Resolve(q, src).value;
      var limit := Limit(q);
      var window := if limit.Some? then Slice((Page(q) - 1) * limit.value, limit.value) else All;
      && (r.Ok? <==> src.count(filter).Ok? && src.find(filter, window).Ok?
                     && MapItems(src.find(filter, window).value, now).Ok?)
      && (r.Ok? ==> (r.value.Paged? <==> limit.Some?) && (r.value.Plain? <==> limit.None?)
                    && r.value.items == MapItems(src.find(filter, window).value, now).value)
      && (r.Ok? && limit.Some? ==>
            r.value == Paged(r.value.items, src.count(filter).value, Page(q), limit.value,
                             JsText.CeilDiv(src.count(filter).value, limit.value)))
  {
    var page := Page(q);
    var limit := Limit(q);
    if q.mode == Some("archive") {
      if src.archive.Err? {
        return Err(Fail(src.archive.error));
      }
      return Ok(Archive(ArchiveEntries(src.archive.value, now)));
    }
    var resolved := BuildFilter(q, src);
    if resolved.None? {
      return Ok(Empty(limit));
    }
    var filter := resolved.value;
    var total := src.count(filter);
    if total.Err? {
      return Err(Fail(total.error));
    }
    var window := All;
    if limit.Some? {
      window := Slice((page - 1) * limit.value, limit.value);
    }
    var docs := src.find(filter, window);
    if docs.Err? {
      return Err(Fail(docs.error));
    }
    var totalPages := if limit.Some? then JsText.CeilDiv(total.value, limit.value) else 1;
    var items := MapItems(docs.value, now);
    if items.Err? {
      return Err(Fail(items.error));
    }
    if limit.Some? {
      return Ok(Paged(items.value, total.value, page, limit.value, totalPages));
    }
    return Ok(Plain(items.value));
  }

  // ----- what the handler promises -----

  /** The page is the parsed number unless that is missing, `NaN` or 0, in
      which case it is 1; it is never 0. */
  lemma PageNeverZero(q: Query)
    ensures Page(q) != 0
    ensures q.page.None? ==> Page(q) == 1
  {
  }

  /** With a positive limit the window starts `(page - 1) * limit` items in,
      and the page count is the least number of pages that hold every item:
      no items give no pages. */
  lemma PagingArithmetic(page: int, limit: int, total: nat)
    requires limit > 0
    ensures page >= 1 ==> (page - 1) * limit >= 0
    ensures JsText.CeilDiv(total, limit) >= 0
    ensures total == 0 <==> JsText.CeilDiv(total, limit) == 0
    ensures JsText.CeilDiv(total, limit) * limit >= total
    ensures total > 0 ==> (JsText.CeilDiv(total, limit) - 1) * limit < total
  {
  }

  /** Reading a reference as `toVM.ts` does and embedding it in an item. */
  function EmbedRef(r: ToVM.RefVM): ItemRef {
    ItemRef(Some(r.id), r.name, r.slug)
  }

  /** The item a `toVM.ts` list item stands for. */
  function Embed(vm: ToVM.ListItemVM): Item {
    Item(vm.id, vm.title, vm.slug, vm.summary, vm.coverImage, vm.publishedAt, vm.views, vm.isTop, vm.isPublished,
         if vm.category.Some? then Some(EmbedRef(vm.category.value)) else None,
         seq(|vm.tags|, k requires 0 <= k < |vm.tags| => EmbedRef(vm.tags[k])), vm.createdAt, vm.updatedAt)
  }

  /** Every reference of a document has an id and no tag entry is `null`. */
  predicate WellFormed(d: Lean.Doc) {
    && (d.category.Some? ==> d.category.value.id.Some?)
    && (d.tags.Items? ==> forall k :: 0 <= k < |d.tags.items| ==> d.tags.items[k].Some? && d.tags.items[k].value.id.Some?)
  }

  /** On a document whose references all have ids, the handler's inline map
      gives what `toArticleListItemVM` gives. */
  lemma MapItemAgreesWithVM(d: Lean.Doc, now: nat)
    requires WellFormed(d)
    ensures MapItem(d, now) == Ok(Embed(ToVM.ToListItemVM(d, now)))
  {
    var vms := ToVM.TagsVM(d.tags);
    var vm := ToVM.ToListItemVM(d, now);
    assert vm == ToVM.ListItemVM(d.id, Lean.OrEmpty(d.title), Lean.OrEmpty(d.slug), Lean.OrEmpty(d.summary),
      Lean.OrEmpty(d.coverImage), ToVM.ToRefVM(d.category), vms, Lean.OrZero(d.views),
      d.isTop.GetOr(false), d.isPublished != Some(false),
      Lean.OrNow(d.publishedAt, now), Lean.OrNow(d.createdAt, now), Lean.OrNow(d.updatedAt, now));
    TagsAgree(d.tags);
    CategoryAgree(d.category);
    var tags := TagsOf(d.tags).value;
    var e := Embed(vm);
    assert e.tags == tags;
    assert e == Item(d.id, Lean.OrEmpty(d.title), Lean.OrEmpty(d.slug), Lean.OrEmpty(d.summary), Lean.OrEmpty(d.coverImage),
                     Lean.OrNow(d.publishedAt, now), Lean.OrZero(d.views), d.isTop.GetOr(false), d.isPublished != Some(false),
                     CategoryOf(d.category), tags, Lean.OrNow(d.createdAt, now), Lean.OrNow(d.updatedAt, now));
  }

  /** The tags part: with every entry present and carrying an id, the
      handler's tags are the embedded `toVM.ts` tags. */
  lemma TagsAgree(tags: Lean.RefList)
    requires tags.Items? ==> forall k :: 0 <= k < |tags.items| ==> tags.items[k].Some? && tags.items[k].value.id.Some?
    ensures TagsOf(tags).Ok?
    ensures var vms := ToVM.TagsVM(tags);
      TagsOf(tags).value == seq(|vms|, k requires 0 <= k < |vms| => EmbedRef(vms[k]))
  {
    var vms := ToVM.TagsVM(tags);
    var e := seq(|vms|, k requires 0 <= k < |vms| => EmbedRef(vms[k]));
    if tags.Items? {
      var items := tags.items;
      ConvertAllOfIds(items);
      assert !(exists k :: 0 <= k < |items| && items[k].None?);
      var r := TagsOf(tags).value;
      assert |r| == |items| == |e|;
      forall k | 0 <= k < |items| ensures r[k] == e[k] {
        assert e[k] == EmbedRef(vms[k]);
      }
    }
  }

  /** The category part: a category with an id is embedded as `toVM.ts`
      converts it. */
  lemma CategoryAgree(c: Option<Lean.Ref>)
    requires c.Some? ==> c.value.id.Some?
    ensures CategoryOf(c) == if ToVM.ToRefVM(c).Some? then Some(EmbedRef(ToVM.ToRefVM(c).value)) else None
  {
  }

  /** When every entry is present and has an id, `toVM.ts` keeps each entry
      at its place. */
  lemma {:induction false} ConvertAllOfIds(items: seq<Option<Lean.Ref>>)
    requires forall k :: 0 <= k < |items| ==> items[k].Some? && items[k].value.id.Some?
    ensures |ToVM.ConvertAll(items)| == |items|
    ensures forall k :: 0 <= k < |items| ==>
      ToVM.ConvertAll(items)[k] == ToVM.RefVM(items[k].value.id.value, Lean.OrEmpty(items[k].value.name), Lean.OrEmpty(items[k].value.slug))
  {
    if items != [] {
      var init := items[..|items| - 1];
      ConvertAllOfIds(init);
      assert ToVM.ConvertAll(items) == ToVM.ConvertAll(init) + [ToVM.ToRefVM(items[|items| - 1]).value];
    }
  }

  /** Where the two differ: a `null` tag entry makes this handler fail with
      500, where `toVM.ts` drops the entry. */
  lemma NullTagFails(d: Lean.Doc, now: nat, k: nat)
    requires d.tags.Items? && k < |d.tags.items| && d.tags.items[k].None?
    ensures MapItem(d, now).Err?
    ensures Fail(MapItem(d, now).error) == Failure(500, NullTagMessage)
    ensures |ToVM.ToListItemVM(d, now).tags| < |d.tags.items|
  {
    ToVM.ConvertAllKeepsAll(d.tags.items);
  }

  /** And a category object without `_id` is kept (its id printed as
      `"undefined"`), where `toVM.ts` gives `null`. */
  lemma CategoryWithoutId(d: Lean.Doc, now: nat)
    requires d.category.Some? && d.category.value.id.None? && MapItem(d, now).Ok?
    ensures MapItem(d, now).value.category.Some? && MapItem(d, now).value.category.value.id.None?
    ensures ToVM.ToListItemVM(d, now).category.None?
  {
  }
}
