/**
 * `GET /api/gallery`: one page of photos, newest first, with the page
 * arithmetic clamped so that page and limit are at least 1.
 *
 * The photo collection is an input: `find` is the sorted query with its
 * skip and limit, `count` the number of photos, each as what the query
 * returned or the message of what it threw.
 */
module Gallery {
  import opened Wrappers
  import JsText

  /** The query string values the handler reads. */
  datatype Query = Query(page: Option<string>, limit: Option<string>)

  /** A lean photo with the selected fields; `None` for a missing one. */
  datatype Photo = Photo(
    id: nat,
    url: Option<string>,
    width: Option<int>,
    height: Option<int>,
    caption: Option<string>,
    createdAt: Option<nat>)

  /** A mapped photo; the date is an instant. */
  datatype Item = Item(id: nat, url: string, width: int, height: int, caption: string, createdAt: nat)

  /** The photo collection as the handler sees it. */
  datatype Source = Source(find: (int, int) -> Result<seq<Photo>, string>, count: Result<nat, string>)

  /** The `data` object of the answer. */
  datatype Data = Data(list: seq<Item>, total: nat, page: int, limit: int, totalPages: int)

  /** The error the handler throws. */
  datatype Failure = Failure(status: int, message: string)

  /** `Math.max(parseInt(query.page) || 1, 1)`. */
  function Page(q: Query): (page: int)
    ensures page >= 1
    ensures JsText.ParseQuery(q.page) in {None, Some(0)} ==> page == 1
    ensures JsText.ParseQuery(q.page).Some? && JsText.ParseQuery(q.page).value >= 1 ==> Some(page) == JsText.ParseQuery(q.page)
    ensures JsText.ParseQuery(q.page).Some? && JsText.ParseQuery(q.page).value < 0 ==> page == 1
  {
    var p := JsText.OrDefault(JsText.ParseQuery(q.page), 1);
    if p >= 1 then p else 1
  }

  /** `Math.max(parseInt(query.limit) || 20, 1)`. */
  function Limit(q: Query): (limit: int)
    ensures limit >= 1
    ensures JsText.ParseQuery(q.limit) in {None, Some(0)} ==> limit == 20
    ensures JsText.ParseQuery(q.limit).Some? && JsText.ParseQuery(q.limit).value >= 1 ==> Some(limit) == JsText.ParseQuery(q.limit)
    ensures JsText.ParseQuery(q.limit).Some? && JsText.ParseQuery(q.limit).value < 0 ==> limit == 1
  {
    var l := JsText.OrDefault(JsText.ParseQuery(q.limit), 20);
    if l >= 1 then l else 1
  }

  /** `(page - 1) * limit`. */
  function Skip(q: Query): int {
    (Page(q) - 1) * Limit(q)
  }

  /** The `map` callback: `''` and 0 for missing fields, now for a missing date. */
  function MapItem(p: Photo, now: nat): (item: Item)
    ensures item.id == p.id
    ensures item.url == p.url.GetOr("") && item.caption == p.caption.GetOr("")
    ensures item.width == p.width.GetOr(0) && item.height == p.height.GetOr(0)
    ensures item.createdAt == p.createdAt.GetOr(now)
  {
    Item(p.id, p.url.GetOr(""), p.width.GetOr(0), p.height.GetOr(0), p.caption.GetOr(""), p.createdAt.GetOr(now))
  }

  /** The handler. Both queries run together; when both fail, the model
      reports the `find` error. */
  function Handle(q: Query, src: Source, now: nat): (r: Result<Data, Failure>)
    ensures r.Ok? <==> src.find(Skip(q), Limit(q)).Ok? && src.count.Ok?
    ensures r.Ok? ==>
      var found := src.find(Skip(q), Limit(q)).value;
      && |r.value.list| == |found|
      && (forall k :: 0 <= k < |found| ==> r.value.list[k] == MapItem(found[k], now))
      && r.value.total == src.count.value
      && r.value.page == Page(q) && r.value.limit == Limit(q)
      && r.value.totalPages == JsText.CeilDiv(src.count.value, Limit(q))
    ensures r.Err? ==> r.error.status == 500 && r.error.message != ""
  {
    var found := src.find(Skip(q), Limit(q));
    if found.Err? || src.count.Err? then
      var message := if found.Err? then found.error else src.count.error;
      Err(Failure(500, if message != "" then message else "Failed to fetch gallery"))
    else
      var list := seq(|found.value|, k requires 0 <= k < |found.value| => MapItem(found.value[k], now));
      Ok(Data(list, src.count.value, Page(q), Limit(q), JsText.CeilDiv(src.count.value, Limit(q))))
  }

  // ----- what the handler promises -----

  /** The window never starts before the first photo, and the first page
      starts at it. */
  lemma SkipNonNegative(q: Query)
    ensures Skip(q) >= 0
    ensures Skip(q) == 0 <==> Page(q) == 1
  {
    WindowStart(Page(q), Limit(q));
  }

  lemma WindowStart(page: int, limit: int)
    requires page >= 1 && limit >= 1
    ensures (page - 1) * limit >= page - 1 >= 0
  {
  }

  /** The pages hold every photo and no page is empty: no photos give no
      pages, and the last page starts before the last photo. */
  lemma PagesCoverTotal(q: Query, total: nat)
    ensures JsText.CeilDiv(total, Limit(q)) >= 0
    ensures total == 0 <==> JsText.CeilDiv(total, Limit(q)) == 0
    ensures JsText.CeilDiv(total, Limit(q)) * Limit(q) >= total
    ensures total > 0 ==> (JsText.CeilDiv(total, Limit(q)) - 1) * Limit(q) < total
  {
  }
}
