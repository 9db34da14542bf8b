/**
 * The pure helpers of the news cron route: keyword sentiment, ticker tagging, and
 * the per-article record the route builds (skipping untitled articles, truncating
 * the summary). Fetching the feed, parsing XML and the database upsert are not
 * modelled; the feed arrives as a sequence of items.
 */
module NewsRoute {
  import opened Wrappers
  import opened Text

  datatype Sentiment = Positive | Negative | Neutral

  const Positives: seq<string> :=
    ["surge", "soar", "beat", "profit", "record", "gain", "bull", "growth", "hike", "dividend"]
  const Negatives: seq<string> :=
    ["drop", "fall", "miss", "loss", "bear", "crash", "risk", "debt", "cut", "war"]

  /** How many of `words` occur in `text`; a word counts once however often it occurs. */
  function Hits(text: string, words: seq<string>): (n: nat)
    ensures n <= |words|
  {
    if words == [] then 0
    else Hits(text, words[..|words| - 1]) + (if Includes(text, words[|words| - 1]) then 1 else 0)
  }

  /** No hit at all exactly when no word occurs; every word hits exactly when all occur. */
  lemma HitsCountPresence(text: string, words: seq<string>)
    ensures Hits(text, words) == 0 <==> forall w :: w in words ==> !Includes(text, w)
    ensures Hits(text, words) == |words| <==> forall w :: w in words ==> Includes(text, w)
  {
    NoHitsIffAbsent(text, words);
    AllHitIffPresent(text, words);
  }

  lemma {:induction false} NoHitsIffAbsent(text: string, words: seq<string>)
    ensures Hits(text, words) == 0 <==> forall w :: w in words ==> !Includes(text, w)
  {
    if words != [] {
      var init, last := words[..|words| - 1], words[|words| - 1];
      assert words == init + [last];
      NoHitsIffAbsent(text, init);
      assert Hits(text, words) == Hits(text, init) + (if Includes(text, last) then 1 else 0);
      if Hits(text, words) == 0 {
        forall w | w in words
          ensures !Includes(text, w)
        {
          if w != last {
            assert w in init;
          }
        }
      } else if Includes(text, last) {
        assert last in words;
      } else {
        var w :| w in init && Includes(text, w);
        assert w in words;
      }
    }
  }

  lemma {:induction false} AllHitIffPresent(text: string, words: seq<string>)
    ensures Hits(text, words) == |words| <==> forall w :: w in words ==> Includes(text, w)
  {
    if words != [] {
      var init, last := words[..|words| - 1], words[|words| - 1];
      assert words == init + [last];
      AllHitIffPresent(text, init);
      assert Hits(text, words) == Hits(text, init) + (if Includes(text, last) then 1 else 0);
      if Hits(text, words) == |words| {
        forall w | w in words
          ensures Includes(text, w)
        {
          if w != last {
            assert w in init;
          }
        }
      } else if !Includes(text, last) {
        assert last in words;
      } else {
        var w :| w in init && !Includes(text, w);
        assert w in words;
      }
    }
  }

  /** The keyword score of a text: positive hits minus negative hits, on the lower-cased text. */
  function Score(text: string): (score: int)
    ensures -|Negatives| <= score <= |Positives|
  {
    var textLower := Lower(text);
    Hits(textLower, Positives) - Hits(textLower, Negatives)
  }

  function Classify(score: int): (s: Sentiment)
    ensures s == Positive <==> score > 0
    ensures s == Negative <==> score < 0
    ensures s == Neutral <==> score == 0
  {
    if score > 0 then Positive else if score < 0 then Negative else Neutral
  }

  function SentimentOf(text: string): Sentiment {
    Classify(Score(text))
  }

  /** `analyzeSentiment`: counts keyword hits into `score`, then classifies it. */
  method AnalyzeSentiment(text: string) returns (s: Sentiment)
    ensures s == SentimentOf(text)
  {
    var textLower := Lower(text);
    var score := 0;
    var i := 0;
    while i < |Positives|
      invariant 0 <= i <= |Positives|
      invariant score == Hits(textLower, Positives[..i])
    {
      assert Positives[..i + 1] == Positives[..i] + [Positives[i]];
      assert Hits(textLower, Positives[..i + 1])
          == Hits(textLower, Positives[..i]) + (if Includes(textLower, Positives[i]) then 1 else 0);
      if Includes(textLower, Positives[i]) {
        score := score + 1;
      }
      i := i + 1;
    }
    assert Positives[..i] == Positives;
    i := 0;
    while i < |Negatives|
      invariant 0 <= i <= |Negatives|
      invariant score == Hits(textLower, Positives) - Hits(textLower, Negatives[..i])
    {
      assert Negatives[..i + 1] == Negatives[..i] + [Negatives[i]];
      assert Hits(textLower, Negatives[..i + 1])
          == Hits(textLower, Negatives[..i]) + (if Includes(textLower, Negatives[i]) then 1 else 0);
      if Includes(textLower, Negatives[i]) {
        score := score - 1;
      }
      i := i + 1;
    }
    assert Negatives[..i] == Negatives;
    if score > 0 {
      return Positive;
    }
    if score < 0 {
      return Negative;
    }
    return Neutral;
  }

  /** A text in which no keyword occurs, in any case, is neutral. */
  lemma NoKeywordIsNeutral(text: string)
    requires forall w :: w in Positives + Negatives ==> !Includes(Lower(text), w)
    ensures SentimentOf(text) == Neutral
  {
    assert forall w :: w in Positives ==> w in Positives + Negatives;
    assert forall w :: w in Negatives ==> w in Positives + Negatives;
    HitsCountPresence(Lower(text), Positives);
    HitsCountPresence(Lower(text), Negatives);
  }

  /** Matching ignores case: lower-casing the text first changes nothing. */
  lemma SentimentIgnoresCase(text: string)
    ensures SentimentOf(Lower(text)) == SentimentOf(text)
  {
    LowerIdempotent(text);
  }

  /** `sym` occurs at `i`, ignoring case (the regular expression's `i` flag). */
  predicate MatchesAt(text: string, sym: string, i: int) {
    0 <= i && i + |sym| <= |text| && Lower(text[i..i + |sym|]) == Lower(sym)
  }

  /** `\b` before and after an occurrence of a symbol made of word characters. */
  predicate WordBounded(text: string, sym: string, i: int)
    requires 0 <= i <= |text| - |sym|
  {
    (i == 0 || !IsWordChar(text[i - 1])) && (i + |sym| == |text| || !IsWordChar(text[i + |sym|]))
  }

  /** `\$` right before an occurrence. */
  predicate DollarBefore(text: string, i: int)
    requires 0 <= i <= |text|
  {
    i > 0 && text[i - 1] == '$'
  }

  /** `new RegExp("\\b" + sym + "\\b|\\$" + sym, "i").test(text)`, for a symbol of word characters. */
  predicate Mentions(text: string, sym: string) {
    exists i :: 0 <= i <= |text| - |sym| && MatchesAt(text, sym, i) && (WordBounded(text, sym, i) || DollarBefore(text, i))
  }

  /** A cashtag always tags its symbol, in any case. */
  lemma CashtagMentions(sym: string, prefix: string)
    ensures Mentions(prefix + "$" + Lower(sym), sym)
  {
    var text := prefix + "$" + Lower(sym);
    var i := |prefix| + 1;
    assert text[i..i + |sym|] == Lower(sym);
    LowerIdempotent(sym);
    assert MatchesAt(text, sym, i) && DollarBefore(text, i);
  }

  /** A symbol standing alone as a whole word is tagged. */
  lemma StandaloneWordMentions(sym: string)
    ensures Mentions(sym, sym)
  {
    assert sym[0..|sym|] == sym;
    assert MatchesAt(sym, sym, 0) && WordBounded(sym, sym, 0);
  }

  lemma FirstIndexOfPrefix(xs: seq<string>, s: string, n: nat)
    requires n <= |xs| && s in xs[..n]
    ensures s in xs && FirstIndex(xs[..n], s) == FirstIndex(xs, s)
  {
    var k, k' := FirstIndex(xs[..n], s), FirstIndex(xs, s);
    assert xs[..n][..k] == xs[..k];
  }

  /**
   * The tags `extractTickers` returns: the known symbols the text mentions, each once,
   * in the order they are first met in `known`.
   */
  function TagsOf(text: string, known: seq<string>): seq<string> {
    if known == [] then []
    else
      var init, sym := known[..|known| - 1], known[|known| - 1];
      var prev := TagsOf(text, init);
      if Mentions(text, sym) && sym !in prev then prev + [sym] else prev
  }

  /** A symbol is tagged exactly when it is known and the text mentions it. */
  lemma {:induction false} TagsOfMembers(text: string, known: seq<string>)
    ensures forall s :: s in TagsOf(text, known) <==> s in known && Mentions(text, s)
  {
    if known != [] {
      var n := |known| - 1;
      assert known == known[..n] + [known[n]];
      TagsOfMembers(text, known[..n]);
    }
  }

  /** The symbols of `found` are known, and listed in the order of their first occurrence in `known`. */
  predicate InKnownOrder(found: seq<string>, known: seq<string>) {
    forall i, j :: 0 <= i < j < |found| ==>
      found[i] in known && found[j] in known && FirstIndex(known, found[i]) < FirstIndex(known, found[j])
  }

  /** The tags keep the order of the known symbols' first occurrences. */
  lemma {:induction false} TagsOfOrdered(text: string, known: seq<string>)
    ensures InKnownOrder(TagsOf(text, known), known)
  {
    if known != [] {
      var n := |known| - 1;
      var init, sym := known[..n], known[n];
      assert known == init + [sym];
      TagsOfOrdered(text, init);
      TagsOfMembers(text, init);
      var prev := TagsOf(text, init);
      forall s | s in prev
        ensures s in known && FirstIndex(init, s) == FirstIndex(known, s) < n
      {
        FirstIndexOfPrefix(known, s, n);
      }
      forall i, j | 0 <= i < j < |prev|
        ensures prev[i] in known && prev[j] in known && FirstIndex(known, prev[i]) < FirstIndex(known, prev[j])
      {
        assert prev[i] in prev && prev[j] in prev;
      }
      var found := TagsOf(text, known);
      var added := Mentions(text, sym) && sym !in prev;
      if added {
        assert sym !in init;
        assert FirstIndex(known, sym) == n;
      }
      assert found == if added then prev + [sym] else prev;
      forall i, j | 0 <= i < j < |found|
        ensures found[i] in known && found[j] in known && FirstIndex(known, found[i]) < FirstIndex(known, found[j])
      {
        assert found[i] == prev[i];
        if j < |prev| {
          assert found[j] == prev[j];
        } else {
          assert found[j] == sym && prev[i] in prev;
        }
      }
      assert InKnownOrder(found, known);
    }
  }

  /** No symbol is tagged twice. */
  lemma TagsOfDistinct(text: string, known: seq<string>)
    ensures var found := TagsOf(text, known);
            forall i, j :: 0 <= i < j < |found| ==> found[i] != found[j]
  {
    TagsOfOrdered(text, known);
  }

  /** `extractTickers`: adds each mentioned symbol to an insertion-ordered set. */
  method ExtractTickers(text: string, knownTickers: seq<string>) returns (found: seq<string>)
    ensures found == TagsOf(text, knownTickers)
  {
    found := [];
    var k := 0;
    while k < |knownTickers|
      invariant 0 <= k <= |knownTickers|
      invariant found == TagsOf(text, knownTickers[..k])
    {
      var sym := knownTickers[k];
      assert knownTickers[..k + 1][..k] == knownTickers[..k];
      if Mentions(text, sym) && sym !in found {
        found := found + [sym];
      }
      k := k + 1;
    }
    assert knownTickers[..k] == knownTickers;
  }

  /** A feed item as the XML parser yields it; a missing field is `None`. */
  datatype FeedItem = FeedItem(title: Option<string>, description: Option<string>)

  /** An item after this route's normalisation: the description defaults to "". */
  datatype Article = Article(title: Option<string>, description: string)

  /** The stored fields of a news row the route derives from an article. */
  datatype NewsRecord = NewsRecord(title: string, summary: string, sentiment: Sentiment, tickers: seq<string>)

  /** At most this many items of a feed are processed. */
  const FeedCap: nat := 10

  /** At most this many characters of the description go into the summary. */
  const SummaryLength: nat := 200

  function Min(a: int, b: int): int {
    if a <= b then a else b
  }

  /** `description.slice(0, 200) + "..."`. */
  function Summary(description: string): (r: string)
    ensures |r| == Min(|description|, SummaryLength) + 3 && r[|r| - 3..] == "..."
    ensures r[..|r| - 3] <= description
    ensures |description| <= SummaryLength ==> r == description + "..."
    ensures description == "" ==> r == "..."
  {
    description[..Min(|description|, SummaryLength)] + "..."
  }

  /** The normalised items, capped to the first ten of the feed. */
  function NormalizeFeed(items: seq<FeedItem>): (articles: seq<Article>)
    ensures |articles| == Min(|items|, FeedCap)
    ensures forall k :: 0 <= k < |articles| ==>
              articles[k] == Article(items[k].title, OrEmpty(items[k].description))
  {
    var capped := items[..Min(|items|, FeedCap)];
    seq(|capped|, k requires 0 <= k < |capped| => Article(capped[k].title, OrEmpty(capped[k].description)))
  }

  /** The text the route analyses for one article. */
  function ArticleText(a: Article): string
    requires a.title.Some?
  {
    a.title.value + " " + a.description
  }

  function RecordOf(a: Article, known: seq<string>): NewsRecord
    requires a.title.Some?
  {
    NewsRecord(a.title.value, Summary(a.description), SentimentOf(ArticleText(a)), TagsOf(ArticleText(a), known))
  }

  /** The records the processing loop upserts, in order: one per titled article. */
  function RecordsOf(articles: seq<Article>, known: seq<string>): (records: seq<NewsRecord>)
    ensures |records| <= |articles|
    ensures forall r :: r in records ==> r.title != "" && |r.summary| >= 3 && r.summary[|r.summary| - 3..] == "..."
    ensures (forall a :: a in articles ==> !Truthy(a.title)) ==> records == []
  {
    if articles == [] then []
    else
      var init, a := articles[..|articles| - 1], articles[|articles| - 1];
      assert articles == init + [a];
      var prev := RecordsOf(init, known);
      if !Truthy(a.title) then prev else prev + [RecordOf(a, known)]
  }

  /** The articles the loop keeps, in feed order: those whose title is truthy. */
  function Titled(articles: seq<Article>): (kept: seq<Article>)
    ensures |kept| <= |articles|
    ensures forall a :: a in kept <==> a in articles && Truthy(a.title)
  {
    if articles == [] then []
    else
      var init, a := articles[..|articles| - 1], articles[|articles| - 1];
      assert articles == init + [a];
      Titled(init) + if Truthy(a.title) then [a] else []
  }

  /**
   * Every titled article is stored, in order, and only those: record `i` is the
   * `i`-th titled article's title, its summary, its sentiment and its tags.
   */
  lemma {:induction false} RecordsOfTitled(articles: seq<Article>, known: seq<string>)
    ensures |RecordsOf(articles, known)| == |Titled(articles)|
    ensures forall i :: 0 <= i < |Titled(articles)| ==>
              && Titled(articles)[i].title.Some?
              && RecordsOf(articles, known)[i] == RecordOf(Titled(articles)[i], known)
              && RecordsOf(articles, known)[i].title == Titled(articles)[i].title.value
              && RecordsOf(articles, known)[i].summary == Summary(Titled(articles)[i].description)
              && RecordsOf(articles, known)[i].sentiment == SentimentOf(ArticleText(Titled(articles)[i]))
              && RecordsOf(articles, known)[i].tickers == TagsOf(ArticleText(Titled(articles)[i]), known)
  {
    if articles != [] {
      var init, a := articles[..|articles| - 1], articles[|articles| - 1];
      RecordsOfTitled(init, known);
      var prev, kept := RecordsOf(init, known), Titled(init);
      assert RecordsOf(articles, known) == if Truthy(a.title) then prev + [RecordOf(a, known)] else prev;
      assert Titled(articles) == if Truthy(a.title) then kept + [a] else kept;
      forall i | 0 <= i < |Titled(articles)|
        ensures Titled(articles)[i].title.Some?
        ensures RecordsOf(articles, known)[i] == RecordOf(Titled(articles)[i], known)
      {
        if i < |kept| {
          assert Titled(articles)[i] == kept[i] && RecordsOf(articles, known)[i] == prev[i];
        }
      }
    }
  }

  lemma RecordsOfNext(articles: seq<Article>, k: nat, known: seq<string>)
    requires k < |articles|
    ensures RecordsOf(articles[..k + 1], known)
            == if !Truthy(articles[k].title) then RecordsOf(articles[..k], known)
               else RecordsOf(articles[..k], known) + [RecordOf(articles[k], known)]
  {
    var next := articles[..k + 1];
    assert next[..|next| - 1] == articles[..k];
  }

  /** The processing loop: skip untitled articles, analyse and tag the rest. */
  method ProcessFeed(items: seq<FeedItem>, knownSymbols: seq<string>) returns (records: seq<NewsRecord>)
    ensures records == RecordsOf(NormalizeFeed(items), knownSymbols)
  {
    var articles := NormalizeFeed(items);
    records := [];
    var k := 0;
    while k < |articles|
      invariant 0 <= k <= |articles|
      invariant records == RecordsOf(articles[..k], knownSymbols)
    {
      var art := articles[k];
      RecordsOfNext(articles, k, knownSymbols);
      if !Truthy(art.title) {
        k := k + 1;
        continue;
      }
      var sentiment := AnalyzeSentiment(art.title.value + " " + art.description);
      var tags := ExtractTickers(art.title.value + " " + art.description, knownSymbols);
      records := records + [NewsRecord(art.title.value, art.description[..Min(|art.description|, SummaryLength)] + "...", sentiment, tags)];
      k := k + 1;
    }
    assert articles[..k] == articles;
  }
}
