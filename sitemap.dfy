/**
 * The chunked sitemap: how many child sitemaps exist for a ticker count, which rows of
 * the ticker table child `id` covers, and the entries it lists (the static pages in
 * chunk 0, then four pages per ticker symbol).
 */
module SitemapChunks {
  import opened Wrappers
  import opened Text

  const SiteBase := "https://quanthub.com"

  /** `generateSitemaps`: ids `0 .. ceil(total / 2000) - 1`, with a missing count read as 0. */
  function GenerateSitemaps(count: Option<nat>): (ids: seq<nat>)
    ensures var total := if count.Some? then count.value else 0;
            // the ceiling of total / 2000: enough chunks for every row, and not one more
            && |ids| * 2000 >= total
            && (|ids| > 0 ==> (|ids| - 1) * 2000 < total)
    ensures forall i :: 0 <= i < |ids| ==> ids[i] == i
  {
    var total := if count.Some? then count.value else 0;
    var chunks := (total + 1999) / 2000;
    seq(chunks, i requires 0 <= i < chunks => i)
  }

  /** The first and last row (inclusive) that child `id` asks for. */
  function ChunkStart(id: nat): nat {
    id * 2000
  }

  function ChunkEnd(id: nat): (last: nat)
    ensures last - ChunkStart(id) + 1 == 2000
  {
    ChunkStart(id) + 1999
  }

  /** The rows a `.range(from, to)` query returns from a table in its stored order. */
  function RangeQuery(table: seq<string>, from: nat, to: nat): (rows: seq<string>)
    ensures from <= to ==> |rows| <= to - from + 1
    ensures forall k :: 0 <= k < |rows| ==> from + k < |table| && rows[k] == table[from + k]
  {
    if from >= |table| || to < from then [] else table[from..if to + 1 <= |table| then to + 1 else |table|]
  }

  /** The symbols child `id` reads from a table of symbols. */
  function ChunkSymbols(table: seq<string>, id: nat): (rows: seq<string>)
    ensures |rows| <= 2000
    ensures forall k :: 0 <= k < |rows| ==> ChunkStart(id) + k < |table| && rows[k] == table[ChunkStart(id) + k]
  {
    RangeQuery(table, ChunkStart(id), ChunkEnd(id))
  }

  /** The chunks cover the table in order: concatenated, they are the table itself. */
  function AllChunks(table: seq<string>, n: nat): seq<string> {
    if n == 0 then [] else AllChunks(table, n - 1) + ChunkSymbols(table, n - 1)
  }

  /** `x`, but no further than `len`. */
  function Clip(x: nat, len: nat): (c: nat)
    ensures c <= len && c <= x
  {
    if x <= len then x else len
  }

  lemma {:induction false} AllChunksPrefix(table: seq<string>, n: nat)
    ensures AllChunks(table, n) == table[..Clip(2000 * n, |table|)]
  {
    if n > 0 {
      var m := n - 1;
      var a, b := Clip(2000 * m, |table|), Clip(2000 * n, |table|);
      assert AllChunks(table, n) == AllChunks(table, m) + ChunkSymbols(table, m);
      AllChunksPrefix(table, m);
      ChunkIsSlice(table, m);
      assert ChunkSymbols(table, m) == table[a..b];
      PrefixSplit(table, a, b);
    }
  }

  lemma PrefixSplit(t: seq<string>, a: nat, b: nat)
    requires a <= b <= |t|
    ensures t[..a] + t[a..b] == t[..b]
  {
  }

  /** The rows child `id` reads are the table's rows from `2000 * id` up to `2000 * (id + 1)`, clipped. */
  lemma ChunkIsSlice(table: seq<string>, id: nat)
    ensures Clip(2000 * id, |table|) <= Clip(2000 * (id + 1), |table|)
    ensures ChunkSymbols(table, id) == table[Clip(2000 * id, |table|)..Clip(2000 * (id + 1), |table|)]
  {
  }

  /**
   * The ids `generateSitemaps` returns for the table's row count cover every row
   * exactly once and in order; every id beyond them reads no rows.
   */
  lemma ChunksCoverTable(table: seq<string>)
    ensures var ids := GenerateSitemaps(Some(|table|));
            && AllChunks(table, |ids|) == table
            && forall id: nat :: id >= |ids| ==> ChunkSymbols(table, id) == []
  {
    var ids := GenerateSitemaps(Some(|table|));
    AllChunksPrefix(table, |ids|);
  }

  /** Row `r` is read by child `r / 2000`, at position `r % 2000`. */
  lemma RowInItsChunk(table: seq<string>, r: nat)
    requires r < |table|
    ensures r / 2000 < |GenerateSitemaps(Some(|table|))|
    ensures var c := ChunkSymbols(table, r / 2000);
            r % 2000 < |c| && c[r % 2000] == table[r]
  {
    var id := r / 2000;
    assert ChunkStart(id) <= r <= ChunkEnd(id);
  }

  datatype ChangeFrequency = Daily | Weekly | Monthly

  /** A sitemap entry; `lastModified` is the clock and is not modelled. */
  datatype Entry = Entry(url: string, changeFrequency: ChangeFrequency, priority: real)

  const StaticRoutes: seq<string> :=
    ["", "/news", "/etf", "/data", "/tools/dividend-calculator", "/tools/compound-calculator", "/tools/tax-calculator"]

  function StaticEntry(route: string): Entry {
    Entry(SiteBase + route, Daily, 1.0)
  }

  function StaticEntries(): (es: seq<Entry>)
    ensures |es| == |StaticRoutes|
    ensures forall i :: 0 <= i < |es| ==> es[i] == StaticEntry(StaticRoutes[i])
  {
    seq(|StaticRoutes|, i requires 0 <= i < |StaticRoutes| => StaticEntry(StaticRoutes[i]))
  }

  /** The static pages appear in chunk 0 only. */
  function StaticPart(id: nat): seq<Entry> {
    if id == 0 then StaticEntries() else []
  }

  /** The four pages listed for one ticker symbol, in order. */
  function SymbolPages(sym: string): (es: seq<Entry>)
    ensures |es| == 4
  {
    [ Entry(SiteBase + "/stocks/us/" + sym, Daily, 0.8),
      Entry(SiteBase + "/tools/dividend/" + sym, Weekly, 0.9),
      Entry(SiteBase + "/tools/compound/" + sym, Weekly, 0.7),
      Entry(SiteBase + "/compare/" + Lower(sym) + "-vs-spy", Monthly, 0.6) ]
  }

  function SymbolEntries(symbols: seq<string>): (es: seq<Entry>)
    ensures |es| == 4 * |symbols|
  {
    if symbols == [] then [] else SymbolEntries(symbols[..|symbols| - 1]) + SymbolPages(symbols[|symbols| - 1])
  }

  /** `tickers?.map(t => t.symbol) || []`: a failed query lists no symbols. */
  function SymbolsOf(tickers: Option<seq<string>>): seq<string> {
    if tickers.Some? then tickers.value else []
  }

  /** The entries of child sitemap `id`, given what the ticker query returned. */
  method Sitemap(id: nat, tickers: Option<seq<string>>) returns (entries: seq<Entry>)
    ensures entries == StaticPart(id) + SymbolEntries(SymbolsOf(tickers))
  {
    var symbols := SymbolsOf(tickers);
    entries := [];
    if id == 0 {
      var i := 0;
      while i < |StaticRoutes|
        invariant 0 <= i <= |StaticRoutes|
        invariant entries == StaticEntries()[..i]
      {
        entries := entries + [Entry(SiteBase + StaticRoutes[i], Daily, 1.0)];
        i := i + 1;
      }
    }
    assert entries == StaticPart(id);
    var k := 0;
    while k < |symbols|
      invariant 0 <= k <= |symbols|
      invariant entries == StaticPart(id) + SymbolEntries(symbols[..k])
    {
      var sym := symbols[k];
      ghost var before := entries;
      entries := entries + [Entry(SiteBase + "/stocks/us/" + sym, Daily, 0.8)];
      entries := entries + [Entry(SiteBase + "/tools/dividend/" + sym, Weekly, 0.9)];
      entries := entries + [Entry(SiteBase + "/tools/compound/" + sym, Weekly, 0.7)];
      entries := entries + [Entry(SiteBase + "/compare/" + Lower(sym) + "-vs-spy", Monthly, 0.6)];
      assert entries == before + SymbolPages(sym);
      assert symbols[..k + 1][..k] == symbols[..k];
      assert SymbolEntries(symbols[..k + 1]) == SymbolEntries(symbols[..k]) + SymbolPages(sym);
      k := k + 1;
    }
    assert symbols[..k] == symbols;
  }

  lemma {:induction false} SymbolEntriesAt(symbols: seq<string>, k: nat)
    requires k < |symbols|
    ensures SymbolEntries(symbols)[4 * k..4 * k + 4] == SymbolPages(symbols[k])
  {
    var n := |symbols|;
    var init := symbols[..n - 1];
    var front, last := SymbolEntries(init), SymbolPages(symbols[n - 1]);
    assert SymbolEntries(symbols) == front + last;
    if k < n - 1 {
      SymbolEntriesAt(init, k);
      SliceOfFront(front, last, 4 * k, 4 * k + 4);
    } else {
      SliceOfBack(front, last, 0, 4);
      assert last[0..4] == last;
    }
  }

  lemma SliceOfFront<T>(a: seq<T>, b: seq<T>, x: nat, y: nat)
    requires x <= y <= |a|
    ensures (a + b)[x..y] == a[x..y]
  {
    assert forall i :: x <= i < y ==> (a + b)[i] == a[i];
  }

  lemma SliceOfBack<T>(a: seq<T>, b: seq<T>, x: nat, y: nat)
    requires x <= y <= |b|
    ensures (a + b)[|a| + x..|a| + y] == b[x..y]
  {
    assert forall i :: x <= i < y ==> (a + b)[|a| + i] == b[i];
  }

  /** Chunk 0 lists the seven static pages, in order, each daily at priority 1.0; no other chunk has them. */
  lemma StaticPartLayout(id: nat)
    ensures |StaticPart(id)| == if id == 0 then |StaticRoutes| else 0
    ensures forall i :: 0 <= i < |StaticPart(id)| ==> StaticPart(id)[i] == StaticEntry(StaticRoutes[i])
  {
  }

  /**
   * A chunk's entries are its static part followed by four consecutive entries per
   * symbol: the symbol's stock hub, its dividend and compound tools and its
   * comparison with SPY.
   */
  lemma SitemapLayout(id: nat, symbols: seq<string>)
    ensures var fixed := StaticPart(id);
            var es := fixed + SymbolEntries(symbols);
            && |es| == |fixed| + 4 * |symbols|
            && es[..|fixed|] == fixed
            && forall k :: 0 <= k < |symbols| ==> es[|fixed| + 4 * k..|fixed| + 4 * k + 4] == SymbolPages(symbols[k])
  {
    BlocksAfter(StaticPart(id), symbols);
  }

  /** Whatever comes first, each symbol's four pages follow it in order. */
  lemma BlocksAfter(fixed: seq<Entry>, symbols: seq<string>)
    ensures var es := fixed + SymbolEntries(symbols);
            && |es| == |fixed| + 4 * |symbols|
            && es[..|fixed|] == fixed
            && forall k :: 0 <= k < |symbols| ==> es[|fixed| + 4 * k..|fixed| + 4 * k + 4] == SymbolPages(symbols[k])
  {
    var dynamic := SymbolEntries(symbols);
    SliceOfFront(fixed, dynamic, 0, |fixed|);
    assert fixed[0..|fixed|] == fixed;
    forall k | 0 <= k < |symbols|
      ensures (fixed + dynamic)[|fixed| + 4 * k..|fixed| + 4 * k + 4] == SymbolPages(symbols[k])
    {
      SymbolEntriesAt(symbols, k);
      SliceOfBack(fixed, dynamic, 4 * k, 4 * k + 4);
    }
  }

  /** Every priority is within the range 0.0 to 1.0 that the Sitemap protocol allows. */
  lemma PrioritiesInRange(id: nat, symbols: seq<string>)
    ensures forall e :: e in StaticPart(id) + SymbolEntries(symbols) ==> 0.0 <= e.priority <= 1.0
  {
    SymbolPrioritiesInRange(symbols);
  }

  lemma {:induction false} SymbolPrioritiesInRange(symbols: seq<string>)
    ensures forall e :: e in SymbolEntries(symbols) ==> 0.0 <= e.priority <= 1.0
  {
    if symbols != [] {
      var init := symbols[..|symbols| - 1];
      SymbolPrioritiesInRange(init);
      assert SymbolEntries(symbols) == SymbolEntries(init) + SymbolPages(symbols[|symbols| - 1]);
    }
  }

  /** Only the comparison page lower-cases the symbol; the other three use it as stored. */
  lemma CompareUrlIsCaseInsensitive(a: string, b: string)
    requires Lower(a) == Lower(b)
    ensures SymbolPages(a)[3] == SymbolPages(b)[3]
    ensures a != b ==> SymbolPages(a)[0] != SymbolPages(b)[0]
  {
    if a != b {
      var pre := SiteBase + "/stocks/us/";
      assert (pre + a)[|pre|..] == a;
      assert (pre + b)[|pre|..] == b;
    }
  }
}
