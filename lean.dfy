/**
 * The plain objects a `.lean()` query hands back, as the read handlers see
 * them: every field may be missing, and `category` and `tags` hold the
 * documents `populate('…', 'name slug')` put in place of the ids.
 *
 * Dates are instants in milliseconds; `toISOString` of an instant is not
 * modelled, so view models carry the instant itself.
 */
module Lean {
  import opened Wrappers

  /** A populated category or tag. `id` is `None` for an object without an
      `_id` (a bare ObjectId has one, and no name or slug). */
  datatype Ref = Ref(id: Option<nat>, name: Option<string>, slug: Option<string>)

  /** The `tags` field: an array whose entries may be `null` (shown `None`),
      or something that is not an array. */
  datatype RefList = NotArray | Items(items: seq<Option<Ref>>)

  /** A lean article. `None` stands for a missing or `null` field. */
  datatype Doc = Doc(
    id: nat,
    title: Option<string>,
    slug: Option<string>,
    summary: Option<string>,
    coverImage: Option<string>,
    content: Option<string>,
    category: Option<Ref>,
    tags: RefList,
    views: Option<int>,
    isTop: Option<bool>,
    isPublished: Option<bool>,
    publishedAt: Option<nat>,
    createdAt: Option<nat>,
    updatedAt: Option<nat>)

  /** `s || ''`. */
  function OrEmpty(s: Option<string>): (r: string)
    ensures s.Some? ==> r == s.value
    ensures s.None? ==> r == ""
  {
    s.GetOr("")
  }

  /** `n || 0` on a stored number (`NaN` is not modelled). */
  function OrZero(n: Option<int>): (r: int)
    ensures n.Some? ==> r == n.value
    ensures n.None? ==> r == 0
  {
    n.GetOr(0)
  }

  /** `d ? new Date(d) : new Date()`: the stored instant, or the clock's. */
  function OrNow(d: Option<nat>, now: nat): (r: nat)
    ensures d.Some? ==> r == d.value
    ensures d.None? ==> r == now
  {
    d.GetOr(now)
  }

  /** `Article.find({ isPublished: true })`: the documents whose flag is
      stored as `true`, in collection order. */
  function PublishedOnly(docs: seq<Doc>): (r: seq<Doc>)
    ensures |r| <= |docs|
    ensures forall k :: 0 <= k < |r| ==> r[k].isPublished == Some(true) && r[k] in docs
    ensures forall k :: 0 <= k < |docs| && docs[k].isPublished == Some(true) ==> docs[k] in r
  {
    if docs == [] then []
    else PublishedOnly(docs[..|docs| - 1]) + (if docs[|docs| - 1].isPublished == Some(true) then [docs[|docs| - 1]] else [])
  }

  /** The filter of a single document keeps it exactly when it is published. */
  lemma PublishedOnlyOne(d: Doc)
    ensures PublishedOnly([d]) == if d.isPublished == Some(true) then [d] else []
  {
    assert [d][..0] == [];
  }

  /** The filter works document by document: the published documents of a
      concatenation are those of each part, in order. */
  lemma {:induction false} PublishedOnlyAppend(a: seq<Doc>, b: seq<Doc>)
    ensures PublishedOnly(a + b) == PublishedOnly(a) + PublishedOnly(b)
    decreases |b|
  {
    if b == [] {
      assert a + b == a;
    } else {
      var init, last := b[..|b| - 1], b[|b| - 1];
      assert (a + b)[..|a + b| - 1] == a + init;
      assert b[..|b| - 1] == init;
      PublishedOnlyAppend(a, init);
    }
  }

  /** Each published document occurs in the result as often as in the input,
      and no other document occurs. */
  lemma {:induction false} PublishedOnlyCounts(docs: seq<Doc>, d: Doc)
    ensures multiset(PublishedOnly(docs))[d] == if d.isPublished == Some(true) then multiset(docs)[d] else 0
  {
    if docs != [] {
      var init := docs[..|docs| - 1];
      PublishedOnlyCounts(init, d);
      assert docs == init + [docs[|docs| - 1]];
    }
  }

  /** A list of published documents passes the filter unchanged. */
  lemma {:induction false} PublishedOnlyKeepsPublished(docs: seq<Doc>)
    requires forall k :: 0 <= k < |docs| ==> docs[k].isPublished == Some(true)
    ensures PublishedOnly(docs) == docs
  {
    if docs != [] {
      var init := docs[..|docs| - 1];
      PublishedOnlyKeepsPublished(init);
      assert docs == init + [docs[|docs| - 1]];
    }
  }
}
