/** `generate_market_report`: per-market, per-location and market-by-location
    statistics over the kept articles. Each table is built by one loop over
    the tracked ids (or id pairs) that writes an entry only for a non-empty
    subset of articles. */
module Report {
  import opened Seqs
  import opened Tagger
  import opened Articles
  import opened Sentiment
  import opened Stats
  import opened Dict

  /** What one report entry aggregates over. */
  datatype Bucket =
    | ByMarket(market: string)
    | ByLocation(location: string)
    | ByCell(market: string, location: string)

  /** The matrix key `f"{market}_{location}"`. */
  function MatrixKey(market: string, location: string): string
  {
    market + "_" + location
  }

  /** The dict key an entry is stored under. */
  function Key(b: Bucket): string
  {
    match b
    case ByMarket(m) => m
    case ByLocation(l) => l
    case ByCell(m, l) => MatrixKey(m, l)
  }

  /** The filter of the list comprehension that selects a bucket's articles. */
  predicate InBucket(a: NewsArticle, b: Bucket)
  {
    match b
    case ByMarket(m) => m in a.marketAreas
    case ByLocation(l) => l in a.locations
    case ByCell(m, l) => m in a.marketAreas && l in a.locations
  }

  /** The articles of a bucket, in article order. */
  function BucketArticles(articles: seq<NewsArticle>, b: Bucket): (r: seq<NewsArticle>)
    ensures |r| <= |articles|
    decreases |articles|
  {
    if articles == [] then []
    else
      var rest := BucketArticles(articles[1..], b);
      if InBucket(articles[0], b) then [articles[0]] + rest else rest
  }

  /** A bucket holds each article of its filter with its full multiplicity,
      and nothing else. */
  lemma {:induction false} BucketArticlesCount(articles: seq<NewsArticle>, b: Bucket)
    ensures forall a :: multiset(BucketArticles(articles, b))[a] ==
                        if InBucket(a, b) then multiset(articles)[a] else 0
    decreases |articles|
  {
    if articles != [] {
      BucketArticlesCount(articles[1..], b);
      assert articles == [articles[0]] + articles[1..];
    }
  }

  /** One report entry. `bucket` says what the entry was computed for; for a
      matrix entry it supplies the stored `market` and `location` fields. */
  datatype Entry = Entry(bucket: Bucket, articleCount: nat, averageSentiment: real, sentimentTrend: Trend)

  /** The entry for a bucket, or `None` when no article falls into it. The
      average is rounded for storage; the trend uses the exact mean. */
  function EntryFor(articles: seq<NewsArticle>, b: Bucket): Option<Entry>
  {
    var s := BucketArticles(articles, b);
    if s == [] then None
    else Some(Entry(b, |s|, Round2(Mean(s)), TrendOf(Mean(s))))
  }

  /** The loop `for b in bs: if articles: table[key] = entry`, as a fold. */
  function Tabulate(articles: seq<NewsArticle>, bs: seq<Bucket>): Dict<Entry>
    decreases |bs|
  {
    if bs == [] then []
    else
      var d := Tabulate(articles, bs[..|bs| - 1]);
      var b := bs[|bs| - 1];
      match EntryFor(articles, b)
      case None => d
      case Some(e) => Put(d, Key(b), e)
  }

  /** Reference for a table whose keys never repeat: one `(key, entry)` pair
      per bucket with articles, in bucket order. */
  function Listing(articles: seq<NewsArticle>, bs: seq<Bucket>): Dict<Entry>
    decreases |bs|
  {
    if bs == [] then []
    else
      var b := bs[|bs| - 1];
      Listing(articles, bs[..|bs| - 1]) +
        match EntryFor(articles, b)
        case None => []
        case Some(e) => [(Key(b), e)]
  }

  function MarketBuckets(markets: seq<string>): seq<Bucket>
  {
    seq(|markets|, i requires 0 <= i < |markets| => ByMarket(markets[i]))
  }

  function LocationBuckets(locations: seq<string>): seq<Bucket>
  {
    seq(|locations|, i requires 0 <= i < |locations| => ByLocation(locations[i]))
  }

  /** The inner loop of the matrix: one market against every location. */
  function Row(market: string, locations: seq<string>): seq<Bucket>
  {
    seq(|locations|, j requires 0 <= j < |locations| => ByCell(market, locations[j]))
  }

  /** The matrix loops: market-major, location-minor. */
  function Cells(markets: seq<string>, locations: seq<string>): seq<Bucket>
    decreases |markets|
  {
    if markets == [] then [] else Row(markets[0], locations) + Cells(markets[1..], locations)
  }

  /** The report, without its timestamp. */
  datatype Report = Report(totalArticles: nat, markets: Dict<Entry>, locations: Dict<Entry>, matrix: Dict<Entry>)

  function GenerateReport(articles: seq<NewsArticle>, cr: Crawler): Report
  {
    Report(|articles|,
           Tabulate(articles, MarketBuckets(cr.marketAreas)),
           Tabulate(articles, LocationBuckets(cr.locations)),
           Tabulate(articles, Cells(cr.marketAreas, cr.locations)))
  }

  /** The run: crawl every site and build a report, unless no article at all
      was relevant, in which case there is no report. */
  function RunReport(cr: Crawler, sites: seq<Option<seq<Candidate>>>, polarityOf: PolarityScorer): Option<Report>
  {
    var all := Crawl(cr, sites, polarityOf);
    if all == [] then None else Some(GenerateReport(all, cr))
  }

  // ---------------------------------------------------------------------
  // Buckets

  /** A bucket has articles iff some article passes its filter. */
  lemma BucketNonEmpty(articles: seq<NewsArticle>, b: Bucket)
    ensures BucketArticles(articles, b) != [] <==> exists a :: a in articles && InBucket(a, b)
  {
    var r := BucketArticles(articles, b);
    BucketArticlesCount(articles, b);
    if exists a :: a in articles && InBucket(a, b) {
      var a :| a in articles && InBucket(a, b);
      assert multiset(r)[a] > 0;
    }
    assert forall a :: a in r ==> multiset(r)[a] > 0;
  }

  /** A bucket whose filter implies another's has no more articles. */
  lemma {:induction false} BucketCountMonotone(articles: seq<NewsArticle>, b: Bucket, b': Bucket)
    requires forall a :: InBucket(a, b) ==> InBucket(a, b')
    ensures |BucketArticles(articles, b)| <= |BucketArticles(articles, b')|
    decreases |articles|
  {
    if articles != [] {
      BucketCountMonotone(articles[1..], b, b');
    }
  }

  /** A matrix cell never holds more articles than its market or its location. */
  lemma CellCountBounded(articles: seq<NewsArticle>, m: string, l: string)
    ensures |BucketArticles(articles, ByCell(m, l))| <= |BucketArticles(articles, ByMarket(m))|
    ensures |BucketArticles(articles, ByCell(m, l))| <= |BucketArticles(articles, ByLocation(l))|
  {
    BucketCountMonotone(articles, ByCell(m, l), ByMarket(m));
    BucketCountMonotone(articles, ByCell(m, l), ByLocation(l));
  }

  // ---------------------------------------------------------------------
  // Tables

  /** A key in a table belongs to some bucket with articles. */
  lemma {:induction false} TabulateKeySource(articles: seq<NewsArticle>, bs: seq<Bucket>, k: string)
    requires HasKey(Tabulate(articles, bs), k)
    ensures exists b :: b in bs && Key(b) == k && EntryFor(articles, b).Some?
    decreases |bs|
  {
    var pre, last := bs[..|bs| - 1], bs[|bs| - 1];
    assert bs == pre + [last];
    var d := Tabulate(articles, pre);
    if Key(last) == k && EntryFor(articles, last).Some? {
      assert last in bs;
    } else {
      if EntryFor(articles, last).Some? {
        PutOther(d, Key(last), EntryFor(articles, last).value, k);
      }
      TabulateKeySource(articles, pre, k);
      var b :| b in pre && Key(b) == k && EntryFor(articles, b).Some?;
      assert b in bs;
    }
  }

  /** Every bucket with articles has its key in the table. */
  lemma {:induction false} TabulateKeyStored(articles: seq<NewsArticle>, bs: seq<Bucket>, b: Bucket)
    requires b in bs && EntryFor(articles, b).Some?
    ensures HasKey(Tabulate(articles, bs), Key(b))
    decreases |bs|
  {
    var pre, last := bs[..|bs| - 1], bs[|bs| - 1];
    assert bs == pre + [last];
    var d := Tabulate(articles, pre);
    if last == b {
      PutGet(d, Key(b), EntryFor(articles, b).value);
    } else {
      TabulateKeyStored(articles, pre, b);
      if EntryFor(articles, last).Some? && Key(last) != Key(b) {
        PutOther(d, Key(last), EntryFor(articles, last).value, Key(b));
      } else if EntryFor(articles, last).Some? {
        PutGet(d, Key(last), EntryFor(articles, last).value);
      }
    }
  }

  /** A key is in a table iff some bucket stored under that key has articles. */
  lemma TabulateHasKey(articles: seq<NewsArticle>, bs: seq<Bucket>, k: string)
    ensures HasKey(Tabulate(articles, bs), k) <==>
      exists b :: b in bs && Key(b) == k && EntryFor(articles, b).Some?
  {
    if HasKey(Tabulate(articles, bs), k) {
      TabulateKeySource(articles, bs, k);
    }
    if exists b :: b in bs && Key(b) == k && EntryFor(articles, b).Some? {
      var b :| b in bs && Key(b) == k && EntryFor(articles, b).Some?;
      TabulateKeyStored(articles, bs, b);
    }
  }

  /** Every stored pair is the key and entry of some bucket with articles. */
  lemma {:induction false} TabulateEntries(articles: seq<NewsArticle>, bs: seq<Bucket>)
    ensures forall p :: p in Tabulate(articles, bs) ==>
      exists b :: b in bs && Key(b) == p.0 && EntryFor(articles, b) == Some(p.1)
    decreases |bs|
  {
    if bs != [] {
      var pre, last := bs[..|bs| - 1], bs[|bs| - 1];
      TabulateEntries(articles, pre);
      assert bs == pre + [last];
      if EntryFor(articles, last).Some? {
        PutPairs(Tabulate(articles, pre), Key(last), EntryFor(articles, last).value);
      }
    }
  }

  /** A table never holds a key twice. */
  lemma {:induction false} TabulateKeysUnique(articles: seq<NewsArticle>, bs: seq<Bucket>)
    ensures NoDup(Keys(Tabulate(articles, bs)))
    decreases |bs|
  {
    if bs != [] {
      var pre := bs[..|bs| - 1];
      var b := bs[|bs| - 1];
      TabulateKeysUnique(articles, pre);
      if EntryFor(articles, b).Some? {
        PutKeepsKeysUnique(Tabulate(articles, pre), Key(b), EntryFor(articles, b).value);
      }
    }
  }

  /** When no other bucket shares its key, a bucket with articles is stored
      with exactly its own entry. */
  lemma {:induction false} TabulateGet(articles: seq<NewsArticle>, bs: seq<Bucket>, b: Bucket)
    requires b in bs && EntryFor(articles, b).Some?
    requires forall b' :: b' in bs && Key(b') == Key(b) ==> b' == b
    ensures HasKey(Tabulate(articles, bs), Key(b))
    ensures Get(Tabulate(articles, bs), Key(b)) == EntryFor(articles, b).value
    decreases |bs|
  {
    var pre := bs[..|bs| - 1];
    var last := bs[|bs| - 1];
    assert bs == pre + [last];
    var d := Tabulate(articles, pre);
    if last == b {
      PutGet(d, Key(b), EntryFor(articles, b).value);
    } else {
      TabulateGet(articles, pre, b);
      if EntryFor(articles, last).Some? {
        PutOther(d, Key(last), EntryFor(articles, last).value, Key(b));
      }
    }
  }

  /** When keys never repeat, the table lists the buckets with articles in
      bucket order: every assignment appends. */
  lemma {:induction false} TabulateInOrder(articles: seq<NewsArticle>, bs: seq<Bucket>)
    requires forall i, j :: 0 <= i < j < |bs| ==> Key(bs[i]) != Key(bs[j])
    ensures Tabulate(articles, bs) == Listing(articles, bs)
    decreases |bs|
  {
    if bs != [] {
      var n := |bs| - 1;
      var pre := bs[..n];
      TabulateInOrder(articles, pre);
      TabulateHasKey(articles, pre, Key(bs[n]));
      forall b | b in pre
        ensures Key(b) != Key(bs[n])
      {
        var i :| 0 <= i < n && pre[i] == b;
        assert bs[i] == b;
      }
      if EntryFor(articles, bs[n]).Some? {
        PutAppends(Tabulate(articles, pre), Key(bs[n]), EntryFor(articles, bs[n]).value);
      }
    }
  }

  // ---------------------------------------------------------------------
  // Bucket lists

  lemma MarketBucketsMembers(markets: seq<string>, b: Bucket)
    ensures b in MarketBuckets(markets) <==> b.ByMarket? && b.market in markets
  {
    if b.ByMarket? && b.market in markets {
      var i :| 0 <= i < |markets| && markets[i] == b.market;
      assert MarketBuckets(markets)[i] == b;
    }
  }

  lemma LocationBucketsMembers(locations: seq<string>, b: Bucket)
    ensures b in LocationBuckets(locations) <==> b.ByLocation? && b.location in locations
  {
    if b.ByLocation? && b.location in locations {
      var i :| 0 <= i < |locations| && locations[i] == b.location;
      assert LocationBuckets(locations)[i] == b;
    }
  }

  /** The matrix loops visit exactly the pairs of a tracked market and a
      tracked location. */
  lemma {:induction false} CellsMembers(markets: seq<string>, locations: seq<string>, b: Bucket)
    ensures b in Cells(markets, locations) <==> b.ByCell? && b.market in markets && b.location in locations
    decreases |markets|
  {
    if markets != [] {
      CellsMembers(markets[1..], locations, b);
      assert markets == [markets[0]] + markets[1..];
      if b.ByCell? && b.market == markets[0] && b.location in locations {
        var j :| 0 <= j < |locations| && locations[j] == b.location;
        assert Row(markets[0], locations)[j] == b;
      }
    }
  }

  /** With no repeated ids, the matrix loops visit every pair once. */
  lemma {:induction false} CellsNoDup(markets: seq<string>, locations: seq<string>)
    requires NoDup(markets) && NoDup(locations)
    ensures NoDup(Cells(markets, locations))
    decreases |markets|
  {
    if markets != [] {
      var row := Row(markets[0], locations);
      var rest := Cells(markets[1..], locations);
      CellsNoDup(markets[1..], locations);
      forall b | b in rest
        ensures b.ByCell? && b.market != markets[0]
      {
        CellsMembers(markets[1..], locations, b);
      }
      var all := row + rest;
      forall i, j | 0 <= i < j < |all|
        ensures all[i] != all[j]
      {
        if j < |row| {
          assert all[i] == row[i] && all[j] == row[j];
        } else if i >= |row| {
          assert all[i] == rest[i - |row|] && all[j] == rest[j - |row|];
        } else {
          assert all[i] == row[i] && all[j] == rest[j - |row|];
        }
      }
    }
  }

  /** Index of the first occurrence of `c` in `s`, or `|s|` when there is none. */
  function IndexOf(s: string, c: char): (r: nat)
    ensures r <= |s|
    decreases |s|
  {
    if s == [] then 0 else if s[0] == c then 0 else 1 + IndexOf(s[1..], c)
  }

  /** The first underscore of a matrix key ends its market id, when the
      market id has no underscore of its own. */
  lemma {:induction false} MatrixKeySplit(m: string, l: string)
    requires '_' !in m
    ensures IndexOf(MatrixKey(m, l), '_') == |m|
    decreases |m|
  {
    if m != [] {
      assert MatrixKey(m, l)[1..] == MatrixKey(m[1..], l);
      assert m[0] in m;
      MatrixKeySplit(m[1..], l);
    }
  }

  /** The matrix key is unambiguous when the market id has no underscore. */
  lemma MatrixKeyInjective(m: string, l: string, m': string, l': string)
    requires '_' !in m && '_' !in m'
    requires MatrixKey(m, l) == MatrixKey(m', l')
    ensures m == m' && l == l'
  {
    var k := MatrixKey(m, l);
    MatrixKeySplit(m, l);
    MatrixKeySplit(m', l');
    assert m == k[..|m|] == m';
    assert l == k[|m| + 1..] == l';
  }

  /** Without that condition two different pairs can share one key, and the
      later pair's entry then overwrites the earlier one. */
  lemma MatrixKeyCollision()
    ensures MatrixKey("a_b", "c") == MatrixKey("a", "b_c")
  {
  }

  /** No tracked market id contains an underscore. */
  predicate NoUnderscore(markets: seq<string>)
  {
    forall i :: 0 <= i < |markets| ==> '_' !in markets[i]
  }

  // ---------------------------------------------------------------------
  // The report

  /** A market has an entry iff it is tracked and some article carries it;
      the entry counts exactly those articles, stores their rounded mean, and
      labels the trend from the exact mean. */
  lemma ReportMarkets(articles: seq<NewsArticle>, cr: Crawler, m: string)
    ensures var r := GenerateReport(articles, cr);
      HasKey(r.markets, m) <==> m in cr.marketAreas && exists a :: a in articles && m in a.marketAreas
    ensures var r := GenerateReport(articles, cr);
      var s := BucketArticles(articles, ByMarket(m));
      HasKey(r.markets, m) ==>
        && s != []
        && Get(r.markets, m) == Entry(ByMarket(m), |s|, Round2(Mean(s)), TrendOf(Mean(s)))
  {
    var bs := MarketBuckets(cr.marketAreas);
    TabulateHasKey(articles, bs, m);
    MarketBucketsMembers(cr.marketAreas, ByMarket(m));
    forall b | b in bs && Key(b) == m
      ensures b == ByMarket(m)
    {
      MarketBucketsMembers(cr.marketAreas, b);
    }
    BucketNonEmpty(articles, ByMarket(m));
    if HasKey(Tabulate(articles, bs), m) {
      TabulateGet(articles, bs, ByMarket(m));
    }
  }

  /** The same for locations. */
  lemma ReportLocations(articles: seq<NewsArticle>, cr: Crawler, l: string)
    ensures var r := GenerateReport(articles, cr);
      HasKey(r.locations, l) <==> l in cr.locations && exists a :: a in articles && l in a.locations
    ensures var r := GenerateReport(articles, cr);
      var s := BucketArticles(articles, ByLocation(l));
      HasKey(r.locations, l) ==>
        && s != []
        && Get(r.locations, l) == Entry(ByLocation(l), |s|, Round2(Mean(s)), TrendOf(Mean(s)))
  {
    var bs := LocationBuckets(cr.locations);
    TabulateHasKey(articles, bs, l);
    LocationBucketsMembers(cr.locations, ByLocation(l));
    forall b | b in bs && Key(b) == l
      ensures b == ByLocation(l)
    {
      LocationBucketsMembers(cr.locations, b);
    }
    BucketNonEmpty(articles, ByLocation(l));
    if HasKey(Tabulate(articles, bs), l) {
      TabulateGet(articles, bs, ByLocation(l));
    }
  }

  /** The matrix keys visited for a key of an underscore-free market: only
      the pair itself. */
  lemma CellKeyUnique(cr: Crawler, m: string, l: string)
    requires NoUnderscore(cr.marketAreas) && '_' !in m
    ensures forall b :: b in Cells(cr.marketAreas, cr.locations) && Key(b) == MatrixKey(m, l) ==> b == ByCell(m, l)
  {
    forall b | b in Cells(cr.marketAreas, cr.locations) && Key(b) == MatrixKey(m, l)
      ensures b == ByCell(m, l)
    {
      CellsMembers(cr.marketAreas, cr.locations, b);
      MatrixKeyInjective(b.market, b.location, m, l);
    }
  }

  /** With underscore-free market ids, the matrix has an entry for (m, l) iff
      both are tracked and some article carries both. */
  lemma ReportMatrixKeys(articles: seq<NewsArticle>, cr: Crawler, m: string, l: string)
    requires NoUnderscore(cr.marketAreas) && '_' !in m
    ensures HasKey(GenerateReport(articles, cr).matrix, MatrixKey(m, l)) <==>
      m in cr.marketAreas && l in cr.locations &&
      exists a :: a in articles && m in a.marketAreas && l in a.locations
  {
    var bs := Cells(cr.marketAreas, cr.locations);
    var k := MatrixKey(m, l);
    var t := Tabulate(articles, bs);
    assert GenerateReport(articles, cr).matrix == t;
    TabulateHasKey(articles, bs, k);
    CellsMembers(cr.marketAreas, cr.locations, ByCell(m, l));
    BucketNonEmpty(articles, ByCell(m, l));
    if HasKey(t, k) {
      var b :| b in bs && Key(b) == k && EntryFor(articles, b).Some?;
      CellKeyUnique(cr, m, l);
      assert b == ByCell(m, l);
    }
    if m in cr.marketAreas && l in cr.locations &&
       exists a :: a in articles && m in a.marketAreas && l in a.locations {
      assert EntryFor(articles, ByCell(m, l)).Some?;
      assert Key(ByCell(m, l)) == k;
    }
  }

  /** That entry is the one computed for the pair: it names m and l and
      counts the articles carrying both, at least one of them. */
  lemma ReportMatrixEntry(articles: seq<NewsArticle>, cr: Crawler, m: string, l: string)
    requires NoUnderscore(cr.marketAreas) && '_' !in m
    requires HasKey(GenerateReport(articles, cr).matrix, MatrixKey(m, l))
    ensures var e := Get(GenerateReport(articles, cr).matrix, MatrixKey(m, l));
      && EntryFor(articles, ByCell(m, l)) == Some(e)
      && e.bucket == ByCell(m, l)
      && e.articleCount == |BucketArticles(articles, ByCell(m, l))| >= 1
  {
    var bs := Cells(cr.marketAreas, cr.locations);
    var c := ByCell(m, l);
    assert GenerateReport(articles, cr).matrix == Tabulate(articles, bs);
    TabulateKeySource(articles, bs, MatrixKey(m, l));
    var b :| b in bs && Key(b) == MatrixKey(m, l) && EntryFor(articles, b).Some?;
    CellKeyUnique(cr, m, l);
    assert b == c;
    TabulateGet(articles, bs, c);
    var e := Get(GenerateReport(articles, cr).matrix, MatrixKey(m, l));
    assert EntryFor(articles, c) == Some(e);
    assert e.bucket == c && e.articleCount == |BucketArticles(articles, c)| >= 1;
  }

  /** A matrix entry counts no more articles than the entries of its market
      and of its location, which are both present. */
  lemma ReportMatrixCountBounded(articles: seq<NewsArticle>, cr: Crawler, m: string, l: string)
    requires NoUnderscore(cr.marketAreas) && '_' !in m
    requires HasKey(GenerateReport(articles, cr).matrix, MatrixKey(m, l))
    ensures var r := GenerateReport(articles, cr);
      && HasKey(r.markets, m) && HasKey(r.locations, l)
      && Get(r.matrix, MatrixKey(m, l)).articleCount <= Get(r.markets, m).articleCount
      && Get(r.matrix, MatrixKey(m, l)).articleCount <= Get(r.locations, l).articleCount
  {
    ReportMatrixKeys(articles, cr, m, l);
    ReportMatrixEntry(articles, cr, m, l);
    ReportMarkets(articles, cr, m);
    ReportLocations(articles, cr, l);
    CellCountBounded(articles, m, l);
  }

  /** Every entry of a table counts at least one and at most all articles. */
  lemma TableCounted(articles: seq<NewsArticle>, bs: seq<Bucket>)
    ensures forall p :: p in Tabulate(articles, bs) ==> 1 <= p.1.articleCount <= |articles|
  {
    TabulateEntries(articles, bs);
    forall p | p in Tabulate(articles, bs)
      ensures 1 <= p.1.articleCount <= |articles|
    {
      var b :| b in bs && Key(b) == p.0 && EntryFor(articles, b) == Some(p.1);
      assert p.1.articleCount == |BucketArticles(articles, b)|;
    }
  }

  /** No entry is empty and none counts more articles than the report holds;
      no table repeats a key. */
  lemma ReportEntriesCounted(articles: seq<NewsArticle>, cr: Crawler)
    ensures var r := GenerateReport(articles, cr);
      && r.totalArticles == |articles|
      && (forall p :: p in r.markets ==> 1 <= p.1.articleCount <= r.totalArticles)
      && (forall p :: p in r.locations ==> 1 <= p.1.articleCount <= r.totalArticles)
      && (forall p :: p in r.matrix ==> 1 <= p.1.articleCount <= r.totalArticles)
      && NoDup(Keys(r.markets)) && NoDup(Keys(r.locations)) && NoDup(Keys(r.matrix))
  {
    TableCounted(articles, MarketBuckets(cr.marketAreas));
    TableCounted(articles, LocationBuckets(cr.locations));
    TableCounted(articles, Cells(cr.marketAreas, cr.locations));
    TabulateKeysUnique(articles, MarketBuckets(cr.marketAreas));
    TabulateKeysUnique(articles, LocationBuckets(cr.locations));
    TabulateKeysUnique(articles, Cells(cr.marketAreas, cr.locations));
  }

  /** An entry's exact mean lies within its articles' scores, so scores in
      [0, 100] give stored averages in [0, 100]. */
  lemma EntryAverageInRange(articles: seq<NewsArticle>, b: Bucket)
    requires forall i :: 0 <= i < |articles| ==> 0.0 <= articles[i].sentimentScore <= 100.0
    requires EntryFor(articles, b).Some?
    ensures 0.0 <= EntryFor(articles, b).value.averageSentiment <= 100.0
  {
    var s := BucketArticles(articles, b);
    BucketArticlesCount(articles, b);
    forall i | 0 <= i < |s|
      ensures 0.0 <= s[i].sentimentScore <= 100.0
    {
      assert multiset(s)[s[i]] > 0;
    }
    MeanBetween(s, 0.0, 100.0);
    Round2Exact(0);
    Round2Exact(10000);
    Round2Monotone(0.0, Mean(s));
    Round2Monotone(Mean(s), 100.0);
  }

  /** Every stored average of a report over scores in [0, 100] is in [0, 100]. */
  lemma ReportAveragesInRange(articles: seq<NewsArticle>, cr: Crawler)
    requires forall i :: 0 <= i < |articles| ==> 0.0 <= articles[i].sentimentScore <= 100.0
    ensures var r := GenerateReport(articles, cr);
      && (forall p :: p in r.markets ==> 0.0 <= p.1.averageSentiment <= 100.0)
      && (forall p :: p in r.locations ==> 0.0 <= p.1.averageSentiment <= 100.0)
      && (forall p :: p in r.matrix ==> 0.0 <= p.1.averageSentiment <= 100.0)
  {
    var r := GenerateReport(articles, cr);
    TabulateEntries(articles, MarketBuckets(cr.marketAreas));
    TabulateEntries(articles, LocationBuckets(cr.locations));
    TabulateEntries(articles, Cells(cr.marketAreas, cr.locations));
    forall b | EntryFor(articles, b).Some?
      ensures 0.0 <= EntryFor(articles, b).value.averageSentiment <= 100.0
    {
      EntryAverageInRange(articles, b);
    }
  }

  /** With distinct, underscore-free market ids and distinct location ids, the
      matrix holds its entries in market-major, location-minor order. */
  lemma ReportMatrixOrder(articles: seq<NewsArticle>, cr: Crawler)
    requires NoDup(cr.marketAreas) && NoDup(cr.locations) && NoUnderscore(cr.marketAreas)
    ensures GenerateReport(articles, cr).matrix == Listing(articles, Cells(cr.marketAreas, cr.locations))
  {
    var bs := Cells(cr.marketAreas, cr.locations);
    CellsNoDup(cr.marketAreas, cr.locations);
    forall i, j | 0 <= i < j < |bs|
      ensures Key(bs[i]) != Key(bs[j])
    {
      CellsMembers(cr.marketAreas, cr.locations, bs[i]);
      CellsMembers(cr.marketAreas, cr.locations, bs[j]);
      if Key(bs[i]) == Key(bs[j]) {
        MatrixKeyInjective(bs[i].market, bs[i].location, bs[j].market, bs[j].location);
      }
    }
    TabulateInOrder(articles, bs);
  }

  /** The run reports iff some site yielded a relevant article; the report
      then covers all of them, and with a scorer in range every article and
      every average is a score in [0, 100]. */
  lemma RunReportSound(cr: Crawler, sites: seq<Option<seq<Candidate>>>, polarityOf: PolarityScorer)
    requires PolarityInRange(polarityOf)
    ensures RunReport(cr, sites, polarityOf).Some? <==> Crawl(cr, sites, polarityOf) != []
    ensures RunReport(cr, sites, polarityOf).Some? ==>
      var r := RunReport(cr, sites, polarityOf).value;
      && r.totalArticles == |Crawl(cr, sites, polarityOf)| > 0
      && (forall p :: p in r.markets ==> 0.0 <= p.1.averageSentiment <= 100.0)
      && (forall p :: p in r.locations ==> 0.0 <= p.1.averageSentiment <= 100.0)
      && (forall p :: p in r.matrix ==> 0.0 <= p.1.averageSentiment <= 100.0)
  {
    var all := Crawl(cr, sites, polarityOf);
    CrawlRelevant(cr, sites, polarityOf);
    assert forall i :: 0 <= i < |all| ==> all[i] in all;
    ReportAveragesInRange(all, cr);
  }

  /** Every crawled article passed the relevance filter. */
  lemma {:induction false} CrawlRelevant(cr: Crawler, sites: seq<Option<seq<Candidate>>>, polarityOf: PolarityScorer)
    requires PolarityInRange(polarityOf)
    ensures forall a :: a in Crawl(cr, sites, polarityOf) ==> Relevant(cr, a)
    decreases |sites|
  {
    if sites != [] {
      CrawlRelevant(cr, sites[1..], polarityOf);
      if sites[0].Some? {
        ClassifyAllSound(cr, Take(sites[0].value, MaxCandidates), polarityOf);
      }
    }
  }
}
