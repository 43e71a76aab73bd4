/**
 * `GET /api/stats/articles`: totals, rounded averages, the most viewed
 * article and the ten most viewed articles for a chart.
 *
 * The three queries are written with one filter (`{ status: 'published' }`),
 * but they do not necessarily select the same documents: the aggregation
 * pipeline is sent to the database as written, while the two `find`
 * queries are cast against the schema, which does not declare `status`.
 * The model therefore takes two inputs: the documents the `$match` stage
 * selects, and the documents the two `find` queries select, most viewed
 * first. It computes the `$group` totals from the first and the `findOne`
 * and the `.limit(10)` from the second.
 */
module ArticleStats {
  import opened Wrappers
  import JsText

  /** A selected document with the fields the three queries read. */
  datatype StatDoc = StatDoc(title: Option<string>, slug: Option<string>, content: Option<string>, views: Option<int>)

  /** The database as the handler sees it: the documents the pipeline's
      `$match` selects, the documents the `find` queries select (most viewed
      first), and the message of the first query that threw, if any. */
  datatype Source = Source(grouped: seq<StatDoc>, found: seq<StatDoc>, failure: Option<string>)

  /** The one row of the `$group` stage. */
  datatype Totals = Totals(totalArticles: nat, totalWords: nat, totalViews: int)

  datatype Hottest = Hottest(title: string, slug: string, views: int)

  datatype ChartItem = ChartItem(name: string, value: int, slug: string)

  /** The answer. */
  datatype Stats = Stats(
    totalArticles: nat,
    totalWords: nat,
    totalViews: int,
    avgWords: int,
    avgViews: int,
    hottestArticle: Option<Hottest>,
    chartData: seq<ChartItem>)

  /** The error the handler throws. */
  datatype Failure = Failure(status: int, message: string)

  /** `$sum` of `$strLenCP` of `$ifNull(content, '')`: content length in
      code points. */
  function Words(docs: seq<StatDoc>): nat {
    if docs == [] then 0 else Words(docs[..|docs| - 1]) + |docs[|docs| - 1].content.GetOr("")|
  }

  /** `$sum` of `$ifNull(views, 0)`. */
  function Views(docs: seq<StatDoc>): int {
    if docs == [] then 0 else Views(docs[..|docs| - 1]) + docs[|docs| - 1].views.GetOr(0)
  }

  /** The `$group` stage with `_id: null`: one row, or none at all when no
      document matches. */
  function Group(docs: seq<StatDoc>): (row: Option<Totals>)
    ensures row.None? <==> docs == []
    ensures row.Some? ==> row.value.totalArticles == |docs| >= 1
  {
    if docs == [] then None else Some(Totals(|docs|, Words(docs), Views(docs)))
  }

  /** `totalArticles > 0 ? Math.round(total / totalArticles) : 0`. */
  function Average(total: int, count: nat): (avg: int)
    ensures count == 0 ==> avg == 0
    ensures count > 0 ==> count * (2 * avg - 1) <= 2 * total < count * (2 * avg + 1)
  {
    if count > 0 then JsText.RoundDiv(total, count) else 0
  }

  /** `findOne(...).sort({ views: -1 })`: the first found document, with
      `''` and 0 for missing fields. */
  function Hot(docs: seq<StatDoc>): (h: Option<Hottest>)
    ensures h.None? <==> docs == []
    ensures h.Some? ==>
      && h.value.views == docs[0].views.GetOr(0)
      && h.value.title == docs[0].title.GetOr("") && h.value.slug == docs[0].slug.GetOr("")
  {
    if docs == [] then None
    else Some(Hottest(docs[0].title.GetOr(""), docs[0].slug.GetOr(""), docs[0].views.GetOr(0)))
  }

  /** `find(...).sort({ views: -1 }).limit(10)` mapped to chart items. */
  function Chart(docs: seq<StatDoc>): (chart: seq<ChartItem>)
    ensures |chart| <= 10 && |chart| <= |docs|
    ensures |chart| == 10 || |chart| == |docs|
    ensures forall k :: 0 <= k < |chart| ==>
      chart[k] == ChartItem(docs[k].title.GetOr(""), docs[k].views.GetOr(0), docs[k].slug.GetOr(""))
  {
    var top := if |docs| <= 10 then docs else docs[..10];
    seq(|top|, k requires 0 <= k < |top| => ChartItem(top[k].title.GetOr(""), top[k].views.GetOr(0), top[k].slug.GetOr("")))
  }

  /** The handler: `result || zeros`, each total `|| 0`, the guarded
      averages, the hottest article and the chart. */
  function Handle(src: Source): (r: Result<Stats, Failure>)
    ensures r.Err? <==> src.failure.Some?
    ensures r.Err? ==> r.error.status == 500 && r.error.message != ""
    ensures r.Ok? ==>
      var s := r.value;
      && s.totalArticles == |src.grouped| && s.totalWords == Words(src.grouped) && s.totalViews == Views(src.grouped)
      && s.avgWords == Average(s.totalWords, s.totalArticles) && s.avgViews == Average(s.totalViews, s.totalArticles)
      && s.hottestArticle == Hot(src.found) && s.chartData == Chart(src.found)
  {
    if src.failure.Some? then
      Err(Failure(500, if src.failure.value != "" then src.failure.value else "Failed to compute article stats"))
    else
      var stats := Group(src.grouped).GetOr(Totals(0, 0, 0));
      Ok(Stats(stats.totalArticles, stats.totalWords, stats.totalViews,
               Average(stats.totalWords, stats.totalArticles), Average(stats.totalViews, stats.totalArticles),
               Hot(src.found), Chart(src.found)))
  }

  // ----- what the handler promises -----

  /** With no matching document every number is 0, there is no hottest
      article and the chart is empty. */
  lemma NoArticles(src: Source)
    requires src.grouped == [] && src.found == [] && src.failure.None?
    ensures Handle(src) == Ok(Stats(0, 0, 0, 0, 0, None, []))
  {
  }

  /** The hottest article, when there is one, heads the chart; there is one
      exactly when the `find` queries select a document. */
  lemma HottestHeadsChart(src: Source)
    requires Handle(src).Ok?
    ensures Handle(src).value.hottestArticle.Some? <==> src.found != []
    ensures Handle(src).value.hottestArticle.Some? ==>
      var h := Handle(src).value.hottestArticle.value;
      Handle(src).value.chartData[0] == ChartItem(h.title, h.views, h.slug)
  {
  }

  /** When the aggregate and the `find` queries select the same documents,
      there is a hottest article exactly when there are articles. */
  lemma HottestIffArticles(src: Source)
    requires Handle(src).Ok? && src.grouped == src.found
    ensures Handle(src).value.hottestArticle.Some? <==> Handle(src).value.totalArticles > 0
  {
  }

  /** When the `find` queries select documents the aggregate does not (the
      schema drops the undeclared `status` from the cast queries), the answer
      reports no articles next to a hottest article and a non-empty chart. */
  lemma NoArticlesButHottest(src: Source)
    requires src.failure.None? && src.grouped == [] && src.found != []
    ensures Handle(src).Ok?
    ensures Handle(src).value.totalArticles == 0 && Handle(src).value.avgViews == 0
    ensures Handle(src).value.hottestArticle.Some? && |Handle(src).value.chartData| >= 1
  {
  }

  /** When no document has more views than the first, the view total is at
      most that many times the first's views. */
  lemma {:induction false} ViewsAtMost(docs: seq<StatDoc>, most: int)
    requires forall k :: 0 <= k < |docs| ==> docs[k].views.GetOr(0) <= most
    ensures Views(docs) <= |docs| * most
  {
    if docs != [] {
      var init := docs[..|docs| - 1];
      assert forall k :: 0 <= k < |init| ==> init[k] == docs[k];
      ViewsAtMost(init, most);
      assert |docs| * most == |init| * most + most;
    }
  }

  /** A rounded average never exceeds an upper bound of its terms. */
  lemma AverageAtMost(total: int, count: nat, most: int)
    requires count > 0 && total <= count * most
    ensures Average(total, count) <= most
  {
    var a := Average(total, count);
    assert count * (2 * a - 1) < count * (2 * most + 1) by {
      assert count * (2 * most + 1) == 2 * (count * most) + count;
    }
    CancelFactor(count, 2 * a - 1, 2 * most + 1);
  }

  lemma CancelFactor(c: int, x: int, y: int)
    requires c > 0 && c * x < c * y
    ensures x < y
  {
    assert c * (y - x) > 0 by {
      assert c * y - c * x == c * (y - x);
    }
  }

  /** When no aggregated document has more views than the hottest article,
      the average views do not exceed the hottest article's views (with the
      same documents on both sides, this is the case when the first found
      document is the most viewed). */
  lemma AverageViewsAtMostHottest(src: Source)
    requires Handle(src).Ok? && src.grouped != [] && src.found != []
    requires forall k :: 0 <= k < |src.grouped| ==> src.grouped[k].views.GetOr(0) <= src.found[0].views.GetOr(0)
    ensures Handle(src).value.avgViews <= Handle(src).value.hottestArticle.value.views
  {
    var most := src.found[0].views.GetOr(0);
    ViewsAtMost(src.grouped, most);
    AverageAtMost(Views(src.grouped), |src.grouped|, most);
  }
}
