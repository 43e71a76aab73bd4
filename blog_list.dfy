/**
 * `GET /api/blog`: one page of articles for the admin list, newest first,
 * optionally restricted to one tag. Page and limit fall back to 1 and 10
 * but are not clamped.
 *
 * The article collection is an input: `find` is the sorted query with the
 * tag filter, skip and limit, `count` the number of articles the filter
 * matches, each as what the query returned or the message of what it
 * threw. The documents are returned as they come.
 */
module BlogList {
  import opened Wrappers
  import JsText
  import Lean

  /** The query string values the handler reads. */
  datatype Query = Query(page: Option<string>, limit: Option<string>, tag: Option<string>)

  /** The article collection as the handler sees it; the filter is the
      `tags` value, `None` for `{}`. */
  datatype Source = Source(
    find: (Option<string>, int, int) -> Result<seq<Lean.Doc>, string>,
    count: Option<string> -> Result<nat, string>)

  /** The `data` object of the answer. */
  datatype Data = Data(list: seq<Lean.Doc>, total: nat, page: int, limit: int, totalPages: int)

  /** The error the handler throws. */
  datatype Failure = Failure(status: int, message: string)

  /** `parseInt(query.page) || 1`. */
  function Page(q: Query): (page: int)
    ensures page != 0
    ensures JsText.ParseQuery(q.page) in {None, Some(0)} ==> page == 1
    ensures JsText.ParseQuery(q.page) !in {None, Some(0)} ==> Some(page) == JsText.ParseQuery(q.page)
  {
    JsText.OrDefault(JsText.ParseQuery(q.page), 1)
  }

  /** `parseInt(query.limit) || 10`. */
  function Limit(q: Query): (limit: int)
    ensures limit != 0
    ensures JsText.ParseQuery(q.limit) in {None, Some(0)} ==> limit == 10
    ensures JsText.ParseQuery(q.limit) !in {None, Some(0)} ==> Some(limit) == JsText.ParseQuery(q.limit)
  {
    JsText.OrDefault(JsText.ParseQuery(q.limit), 10)
  }

  /** The filter: `{ tags: tag }` for a non-empty tag, `{}` otherwise. */
  function TagFilter(q: Query): (f: Option<string>)
    ensures f.Some? <==> q.tag.Some? && q.tag.value != ""
    ensures f.Some? ==> f == q.tag
  {
    if q.tag.Some? && q.tag.value != "" then q.tag else None
  }

  /** `(page - 1) * limit`. */
  function Skip(q: Query): int {
    (Page(q) - 1) * Limit(q)
  }

  /** The handler. Both queries run together; when both fail, the model
      reports the `find` error. */
  function Handle(q: Query, src: Source): (r: Result<Data, Failure>)
    ensures r.Ok? <==> src.find(TagFilter(q), Skip(q), Limit(q)).Ok? && src.count(TagFilter(q)).Ok?
    ensures r.Ok? ==>
      && r.value.list == src.find(TagFilter(q), Skip(q), Limit(q)).value
      && r.value.total == src.count(TagFilter(q)).value
      && r.value.page == Page(q) && r.value.limit == Limit(q)
      && r.value.totalPages == JsText.CeilDiv(r.value.total, r.value.limit)
    ensures r.Err? ==> r.error.status == 500 && r.error.message != ""
  {
    var filter := TagFilter(q);
    var list := src.find(filter, Skip(q), Limit(q));
    var total := src.count(filter);
    if list.Err? || total.Err? then
      var message := if list.Err? then list.error else total.error;
      Err(Failure(500, if message != "" then message else "Failed to fetch articles"))
    else
      Ok(Data(list.value, total.value, Page(q), Limit(q), JsText.CeilDiv(total.value, Limit(q))))
  }

  // ----- what the handler promises -----

  /** Nothing is clamped: a page below 1 with a positive limit gives a
      window that starts before the first article, and a negative limit
      gives a page count of at most 0. */
  lemma NoClamping(q: Query, total: nat)
    ensures Page(q) < 1 && Limit(q) > 0 ==> Skip(q) < 0
    ensures Limit(q) < 0 ==> JsText.CeilDiv(total, Limit(q)) <= 0
  {
    NegativeStart(Page(q), Limit(q));
    NegativeLimitPages(total, Limit(q));
  }

  lemma NegativeStart(page: int, limit: int)
    ensures page < 1 && limit > 0 ==> (page - 1) * limit < 0
  {
  }

  /** With a negative divisor, `Math.ceil` of a non-negative total is at
      most 0. */
  lemma NegativeLimitPages(total: nat, limit: int)
    ensures limit < 0 ==> JsText.CeilDiv(total, limit) <= 0
  {
    if limit < 0 {
      var r := JsText.CeilDiv(total, limit);
      NonNegativeTimesNegative(r - 1, limit);
    }
  }

  lemma NonNegativeTimesNegative(x: int, y: int)
    ensures x >= 0 && y < 0 ==> x * y <= 0
  {
  }

  /** `?page=-1` asks for the window that starts 20 articles before the
      first. */
  lemma PageMinusOne()
    ensures Page(Query(Some("-1"), None, None)) == -1
    ensures Skip(Query(Some("-1"), None, None)) == -20
  {
    var s := "-1";
    assert JsText.TrimStart(s) == s by {
      assert !JsText.IsSpace(s[0]);
    }
    assert JsText.Unsigned(s) == "1";
    assert JsText.DigitPrefix("1", 10) == "1";
  }

  /** With a positive limit the pages hold every article and no page is
      empty. */
  lemma PagesCoverTotal(q: Query, total: nat)
    requires Limit(q) > 0
    ensures total == 0 <==> JsText.CeilDiv(total, Limit(q)) == 0
    ensures JsText.CeilDiv(total, Limit(q)) * Limit(q) >= total
    ensures total > 0 ==> (JsText.CeilDiv(total, Limit(q)) - 1) * Limit(q) < total
  {
  }
}
