/**
 * `server/utils/toVM.ts`: turn lean documents into the view models the API
 * returns, filling every missing field with its default.
 */
module ToVM {
  import opened Wrappers
  import Lean

  /** `CategoryVM` and `TagVM`, which have the same shape. */
  datatype RefVM = RefVM(id: nat, name: string, slug: string)

  /** `ArticleListItemVM`; dates are instants. */
  datatype ListItemVM = ListItemVM(
    id: nat,
    title: string,
    slug: string,
    summary: string,
    coverImage: string,
    category: Option<RefVM>,
    tags: seq<RefVM>,
    views: int,
    isTop: bool,
    isPublished: bool,
    publishedAt: nat,
    createdAt: nat,
    updatedAt: nat)

  /** `ArticleDetailVM`: the list item's fields and `content`. */
  datatype DetailVM = DetailVM(item: ListItemVM, content: string)

  /** `toCategoryVM` and `toTagVM` (the two are the same function): `null`
      for a falsy value or an object without `_id`, otherwise the id with
      name and slug defaulted to `''`. */
  function ToRefVM(r: Option<Lean.Ref>): (vm: Option<RefVM>)
    ensures vm.Some? <==> r.Some? && r.value.id.Some?
    ensures vm.Some? ==> vm.value.id == r.value.id.value
    ensures vm.Some? && r.value.name.Some? ==> vm.value.name == r.value.name.value
    ensures vm.Some? && r.value.name.None? ==> vm.value.name == ""
    ensures vm.Some? && r.value.slug.Some? ==> vm.value.slug == r.value.slug.value
    ensures vm.Some? && r.value.slug.None? ==> vm.value.slug == ""
  {
    match r
    case None => None
    case Some(ref) =>
      if ref.id.Some? then Some(RefVM(ref.id.value, Lean.OrEmpty(ref.name), Lean.OrEmpty(ref.slug)))
      else None
  }

  /** `items.map(toTagVM).filter(tag => tag !== null)`. */
  function ConvertAll(items: seq<Option<Lean.Ref>>): (vms: seq<RefVM>)
    ensures |vms| <= |items|
  {
    if items == [] then []
    else
      var last := ToRefVM(items[|items| - 1]);
      ConvertAll(items[..|items| - 1]) + (if last.Some? then [last.value] else [])
  }

  /** Converting keeps the order: the conversion of a concatenation is the
      concatenation of the conversions. */
  lemma {:induction false} ConvertAllAppend(a: seq<Option<Lean.Ref>>, b: seq<Option<Lean.Ref>>)
    ensures ConvertAll(a + b) == ConvertAll(a) + ConvertAll(b)
  {
    if b != [] {
      var init := b[..|b| - 1];
      assert (a + b)[..|a + b| - 1] == a + init;
      assert (a + b)[|a + b| - 1] == b[|b| - 1];
      ConvertAllAppend(a, init);
    } else {
      assert a + b == a;
    }
  }

  /** Every converted tag comes from an entry of the array. */
  lemma {:induction false} ConvertAllFrom(items: seq<Option<Lean.Ref>>)
    ensures forall k :: 0 <= k < |ConvertAll(items)| ==>
      exists j :: 0 <= j < |items| && ToRefVM(items[j]) == Some(ConvertAll(items)[k])
  {
    if items != [] {
      var init := items[..|items| - 1];
      ConvertAllFrom(init);
      var last := ToRefVM(items[|items| - 1]);
      var r := ConvertAll(items);
      assert r == ConvertAll(init) + (if last.Some? then [last.value] else []);
      forall k | 0 <= k < |r|
        ensures exists j :: 0 <= j < |items| && ToRefVM(items[j]) == Some(r[k])
      {
        if k < |ConvertAll(init)| {
          var j :| 0 <= j < |init| && ToRefVM(init[j]) == Some(ConvertAll(init)[k]);
          assert items[j] == init[j] && r[k] == ConvertAll(init)[k];
        } else {
          assert ToRefVM(items[|items| - 1]) == Some(r[k]);
        }
      }
    } else {
      assert |ConvertAll(items)| == 0;
    }
  }

  /** Nothing is dropped unless it is `null` or has no `_id`. */
  lemma {:induction false} ConvertAllKeepsAll(items: seq<Option<Lean.Ref>>)
    ensures |ConvertAll(items)| == |items| <==> forall j :: 0 <= j < |items| ==> ToRefVM(items[j]).Some?
  {
    if items != [] {
      var init := items[..|items| - 1];
      ConvertAllKeepsAll(init);
      var last := ToRefVM(items[|items| - 1]);
      assert ConvertAll(items) == ConvertAll(init) + (if last.Some? then [last.value] else []);
      if forall j :: 0 <= j < |items| ==> ToRefVM(items[j]).Some? {
        forall j | 0 <= j < |init| ensures ToRefVM(init[j]).Some? {
          assert init[j] == items[j];
        }
      } else {
        var j :| 0 <= j < |items| && ToRefVM(items[j]).None?;
        if j < |init| {
          assert init[j] == items[j];
        }
      }
    }
  }

  /** The list item's `tags`: `[]` when the field is not an array. */
  function TagsVM(tags: Lean.RefList): (vms: seq<RefVM>)
    ensures tags.NotArray? ==> vms == []
    ensures tags.Items? ==> vms == ConvertAll(tags.items)
  {
    match tags
    case NotArray => []
    case Items(items) => ConvertAll(items)
  }

  /** `toArticleListItemVM(article)`; `now` is `new Date()`. */
  function ToListItemVM(d: Lean.Doc, now: nat): (vm: ListItemVM)
    ensures vm.id == d.id
    ensures d.title.Some? ==> vm.title == d.title.value
    ensures d.title.None? ==> vm.title == ""
    ensures d.slug.Some? ==> vm.slug == d.slug.value
    ensures d.slug.None? ==> vm.slug == ""
    ensures d.summary.Some? ==> vm.summary == d.summary.value
    ensures d.summary.None? ==> vm.summary == ""
    ensures d.coverImage.Some? ==> vm.coverImage == d.coverImage.value
    ensures d.coverImage.None? ==> vm.coverImage == ""
    ensures vm.category == ToRefVM(d.category)
    ensures vm.category.None? <==> d.category.None? || d.category.value.id.None?
    ensures vm.tags == TagsVM(d.tags)
    ensures d.tags.NotArray? ==> vm.tags == []
    ensures d.tags.Items? ==> |vm.tags| <= |d.tags.items|
    ensures d.views.Some? ==> vm.views == d.views.value
    ensures d.views.None? ==> vm.views == 0
    ensures vm.isTop <==> d.isTop == Some(true)
    ensures vm.isPublished <==> d.isPublished != Some(false)
    ensures d.publishedAt.Some? ==> vm.publishedAt == d.publishedAt.value
    ensures d.publishedAt.None? ==> vm.publishedAt == now
    ensures d.createdAt.Some? ==> vm.createdAt == d.createdAt.value
    ensures d.createdAt.None? ==> vm.createdAt == now
    ensures d.updatedAt.Some? ==> vm.updatedAt == d.updatedAt.value
    ensures d.updatedAt.None? ==> vm.updatedAt == now
  {
    ListItemVM(d.id, Lean.OrEmpty(d.title), Lean.OrEmpty(d.slug), Lean.OrEmpty(d.summary),
      Lean.OrEmpty(d.coverImage), ToRefVM(d.category), TagsVM(d.tags), Lean.OrZero(d.views),
      d.isTop.GetOr(false), d.isPublished != Some(false),
      Lean.OrNow(d.publishedAt, now), Lean.OrNow(d.createdAt, now), Lean.OrNow(d.updatedAt, now))
  }

  /** `toArticleDetailVM(article)`: the list item plus `content || ''`. */
  function ToDetailVM(d: Lean.Doc, now: nat): (vm: DetailVM)
    ensures vm.item == ToListItemVM(d, now)
    ensures d.content.Some? ==> vm.content == d.content.value
    ensures d.content.None? ==> vm.content == ""
  {
    DetailVM(ToListItemVM(d, now), Lean.OrEmpty(d.content))
  }
}
