/**
 * The news part of the daily cron route. It carries its own copies of
 * `analyzeSentiment` and `extractTickers`, proved here to behave exactly as the news
 * route's, and its own processing loop: the first ten feed items, untitled ones
 * skipped. Unlike the news route it does not normalise the items, so the analysed
 * text of an item without a description ends in the word "undefined".
 */
module DailyRoute {
  import opened Wrappers
  import opened Text
  import NewsRoute

  const Positives: seq<string> :=
    ["surge", "soar", "beat", "profit", "record", "gain", "bull", "growth", "hike", "dividend"]
  const Negatives: seq<string> :=
    ["drop", "fall", "miss", "loss", "bear", "crash", "risk", "debt", "cut", "war"]

  /** This route's `analyzeSentiment`: the same count, classified by a nested conditional. */
  method AnalyzeSentiment(text: string) returns (s: NewsRoute.Sentiment)
    ensures s == NewsRoute.SentimentOf(text)
  {
    var textLower := Lower(text);
    var score := 0;
    var i := 0;
    while i < |Positives|
      invariant 0 <= i <= |Positives|
      invariant score == NewsRoute.Hits(textLower, NewsRoute.Positives[..i])
    {
      assert NewsRoute.Positives[..i + 1] == NewsRoute.Positives[..i] + [Positives[i]];
      if Includes(textLower, Positives[i]) {
        score := score + 1;
      }
      i := i + 1;
    }
    assert NewsRoute.Positives[..i] == NewsRoute.Positives;
    i := 0;
    while i < |Negatives|
      invariant 0 <= i <= |Negatives|
      invariant score == NewsRoute.Hits(textLower, NewsRoute.Positives) - NewsRoute.Hits(textLower, NewsRoute.Negatives[..i])
    {
      assert NewsRoute.Negatives[..i + 1] == NewsRoute.Negatives[..i] + [Negatives[i]];
      if Includes(textLower, Negatives[i]) {
        score := score - 1;
      }
      i := i + 1;
    }
    assert NewsRoute.Negatives[..i] == NewsRoute.Negatives;
    s := if score > 0 then NewsRoute.Positive else if score < 0 then NewsRoute.Negative else NewsRoute.Neutral;
  }

  /** This route's `extractTickers`: the same tags as the news route's. */
  method ExtractTickers(text: string, knownTickers: seq<string>) returns (found: seq<string>)
    ensures found == NewsRoute.TagsOf(text, knownTickers)
  {
    found := [];
    var k := 0;
    while k < |knownTickers|
      invariant 0 <= k <= |knownTickers|
      invariant found == NewsRoute.TagsOf(text, knownTickers[..k])
    {
      var sym := knownTickers[k];
      assert knownTickers[..k + 1][..k] == knownTickers[..k];
      if NewsRoute.Mentions(text, sym) && sym !in found {
        found := found + [sym];
      }
      k := k + 1;
    }
    assert knownTickers[..k] == knownTickers;
  }

  /** How an optional string prints inside a template or `+`: a missing one prints as "undefined". */
  function JsString(s: Option<string>): (t: string)
    ensures s.Some? ==> t == s.value
    ensures s.None? ==> t == "undefined"
  {
    match s
    case None => "undefined"
    case Some(v) => v
  }

  /** The text this route analyses: `art.title + " " + art.description`, unnormalised. */
  function ItemText(item: NewsRoute.FeedItem): string
    requires item.title.Some?
  {
    item.title.value + " " + JsString(item.description)
  }

  function RecordOf(item: NewsRoute.FeedItem, known: seq<string>): NewsRoute.NewsRecord
    requires item.title.Some?
  {
    NewsRoute.NewsRecord(
      item.title.value,
      NewsRoute.Summary(OrEmpty(item.description)),
      NewsRoute.SentimentOf(ItemText(item)),
      NewsRoute.TagsOf(ItemText(item), known))
  }

  /** The records this route's loop upserts for the given (already capped) items. */
  function RecordsOf(items: seq<NewsRoute.FeedItem>, known: seq<string>): (records: seq<NewsRoute.NewsRecord>)
    ensures |records| <= |items|
    ensures forall r :: r in records ==> r.title != "" && |r.summary| >= 3 && r.summary[|r.summary| - 3..] == "..."
  {
    if items == [] then []
    else
      var init, item := items[..|items| - 1], items[|items| - 1];
      var prev := RecordsOf(init, known);
      if !Truthy(item.title) then prev else prev + [RecordOf(item, known)]
  }

  /** The items the loop keeps, in feed order: those whose title is truthy. */
  function Titled(items: seq<NewsRoute.FeedItem>): (kept: seq<NewsRoute.FeedItem>)
    ensures |kept| <= |items|
    ensures forall item :: item in kept <==> item in items && Truthy(item.title)
  {
    if items == [] then []
    else
      var init, item := items[..|items| - 1], items[|items| - 1];
      assert items == init + [item];
      Titled(init) + if Truthy(item.title) then [item] else []
  }

  /**
   * Every titled item is stored, in order, and only those. The summary cuts the
   * description, a missing one counting as empty, while sentiment and tags read the
   * text with a missing description spelt "undefined".
   */
  lemma {:induction false} RecordsOfTitled(items: seq<NewsRoute.FeedItem>, known: seq<string>)
    ensures |RecordsOf(items, known)| == |Titled(items)|
    ensures forall i :: 0 <= i < |Titled(items)| ==>
              && Titled(items)[i].title.Some?
              && RecordsOf(items, known)[i] == RecordOf(Titled(items)[i], known)
              && RecordsOf(items, known)[i].title == Titled(items)[i].title.value
              && RecordsOf(items, known)[i].summary == NewsRoute.Summary(OrEmpty(Titled(items)[i].description))
              && (Titled(items)[i].description.None? ==> RecordsOf(items, known)[i].summary == "...")
              && RecordsOf(items, known)[i].sentiment
                 == NewsRoute.SentimentOf(Titled(items)[i].title.value + " " + JsString(Titled(items)[i].description))
              && RecordsOf(items, known)[i].tickers
                 == NewsRoute.TagsOf(Titled(items)[i].title.value + " " + JsString(Titled(items)[i].description), known)
  {
    if items != [] {
      var init, item := items[..|items| - 1], items[|items| - 1];
      RecordsOfTitled(init, known);
      var prev, kept := RecordsOf(init, known), Titled(init);
      assert RecordsOf(items, known) == if Truthy(item.title) then prev + [RecordOf(item, known)] else prev;
      assert Titled(items) == if Truthy(item.title) then kept + [item] else kept;
      forall i | 0 <= i < |Titled(items)|
        ensures Titled(items)[i].title.Some?
        ensures RecordsOf(items, known)[i] == RecordOf(Titled(items)[i], known)
      {
        if i < |kept| {
          assert Titled(items)[i] == kept[i] && RecordsOf(items, known)[i] == prev[i];
        }
      }
    }
  }

  /** The first ten items of the feed. */
  function CapItems(items: seq<NewsRoute.FeedItem>): (capped: seq<NewsRoute.FeedItem>)
    ensures |capped| == NewsRoute.Min(|items|, NewsRoute.FeedCap) && capped <= items
  {
    items[..NewsRoute.Min(|items|, NewsRoute.FeedCap)]
  }

  /** The loop of `updateNews` over one feed. */
  method UpdateNews(items: seq<NewsRoute.FeedItem>, knownSymbols: seq<string>) returns (records: seq<NewsRoute.NewsRecord>)
    ensures records == RecordsOf(CapItems(items), knownSymbols)
  {
    var articles := CapItems(items);
    records := [];
    var k := 0;
    while k < |articles|
      invariant 0 <= k <= |articles|
      invariant records == RecordsOf(articles[..k], knownSymbols)
    {
      var art := articles[k];
      assert articles[..k + 1][..k] == articles[..k];
      if !Truthy(art.title) {
        k := k + 1;
        continue;
      }
      var sentiment := AnalyzeSentiment(art.title.value + " " + JsString(art.description));
      var tags := ExtractTickers(art.title.value + " " + JsString(art.description), knownSymbols);
      var description := OrEmpty(art.description);
      var summary := description[..NewsRoute.Min(|description|, NewsRoute.SummaryLength)] + "...";
      records := records + [NewsRoute.NewsRecord(art.title.value, summary, sentiment, tags)];
      k := k + 1;
    }
    assert articles[..k] == articles;
  }

  /**
   * When every item carries a description (possibly empty), this route stores exactly
   * the records the news route stores for the same feed.
   */
  lemma {:induction false} AgreesWithNewsRoute(items: seq<NewsRoute.FeedItem>, known: seq<string>)
    requires forall k :: 0 <= k < |items| ==> items[k].description.Some?
    ensures RecordsOf(CapItems(items), known) == NewsRoute.RecordsOf(NewsRoute.NormalizeFeed(items), known)
  {
    SameRecords(CapItems(items), NewsRoute.NormalizeFeed(items), known);
  }

  lemma {:induction false} SameRecords(items: seq<NewsRoute.FeedItem>, articles: seq<NewsRoute.Article>, known: seq<string>)
    requires |items| == |articles|
    requires forall k :: 0 <= k < |items| ==>
               items[k].description.Some? && articles[k] == NewsRoute.Article(items[k].title, OrEmpty(items[k].description))
    ensures RecordsOf(items, known) == NewsRoute.RecordsOf(articles, known)
  {
    if items != [] {
      var n := |items| - 1;
      SameRecords(items[..n], articles[..n], known);
      var item, a := items[n], articles[n];
      if Truthy(item.title) {
        assert ItemText(item) == NewsRoute.ArticleText(a);
      }
    }
  }
}
