/** Concrete runs of the model: an end-to-end aggregation scenario, the
    trend thresholds, and the substring-matching behaviour of the tagger on
    particular texts. */
module Scenarios {
  import opened Seqs
  import opened Text
  import opened Keywords
  import opened Tagger
  import opened Sentiment
  import opened Articles
  import opened Stats
  import opened Dict
  import opened Report
  import opened Summary

  /** Scores exactly on a threshold are neutral; one hundredth past it is not. */
  lemma TrendThresholds()
    ensures TrendOf(60.0) == Neutral && TrendOf(60.01) == Positive
    ensures TrendOf(40.0) == Neutral && TrendOf(39.99) == Negative
  {
  }

  /** The stored average is rounded but the trend is taken from the exact
      mean: a mean of 60.004 is stored as 60.0 and still labelled positive. */
  lemma TrendUsesExactMean()
    ensures Round2(60.004) == 60.0 && TrendOf(60.004) == Positive
  {
    var y := 60.004 * 100.0;
    assert y == 6000.4;
    assert y.Floor == 6000;
  }

  function Article(score: real, markets: seq<string>, locations: seq<string>): NewsArticle
  {
    NewsArticle("", "", "", markets, locations, score)
  }

  /** Two technology articles scored 80 and 40 give a technology entry with
      two articles, average 60.0, labelled neutral. */
  lemma MeanOfTwo()
    ensures var articles := [Article(80.0, ["tecnologia"], ["italia"]), Article(40.0, ["tecnologia"], ["usa"])];
      EntryFor(articles, ByMarket("tecnologia")) == Some(Entry(ByMarket("tecnologia"), 2, 60.0, Neutral))
  {
    var articles := [Article(80.0, ["tecnologia"], ["italia"]), Article(40.0, ["tecnologia"], ["usa"])];
    assert BucketArticles(articles, ByMarket("tecnologia")) == articles;
    assert Mean(articles) == 60.0;
    Round2Exact(6000);
  }

  /** The end-to-end run: a crawler for technology, Italy and the USA reads
      one front page with three candidates, "Tech Italia", "USA Tech" and
      "Milano", and a scorer that finds the first positive (0.8), the second
      negative (-0.8) and the third neutral. */
  const EndToEndCrawler := Crawler(["tecnologia"], ["italia", "usa"])

  const ItalyCandidate := Candidate("Tech Italia", "/italia", "Tech Italia", None)
  const UsaCandidate := Candidate("USA Tech", "/usa", "USA Tech", None)
  const MilanoCandidate := Candidate("Milano", "/milano", "Milano", None)
  const EndToEndCandidates := [ItalyCandidate, UsaCandidate, MilanoCandidate]

  function EndToEndScorer(text: string): Option<real>
  {
    if text == "Tech Italia" then Some(0.8)
    else if text == "USA Tech" then Some(-0.8)
    else Some(0.0)
  }

  /** The two articles the classifier keeps: technology on Italy scored 90
      and technology on the USA scored 10. */
  const OnItaly := NewsArticle("Tech Italia", "Tech Italia", "/italia", ["tecnologia"], ["italia"], 90.0)
  const OnUsa := NewsArticle("USA Tech", "USA Tech", "/usa", ["tecnologia"], ["usa"], 10.0)
  const EndToEndArticles := [OnItaly, OnUsa]

  /** The bucket of a two-article list, spelled out. */
  lemma BucketOfTwo(x: NewsArticle, y: NewsArticle, b: Bucket)
    ensures BucketArticles([x, y], b) ==
      (if InBucket(x, b) then [x] else []) + (if InBucket(y, b) then [y] else [])
  {
    assert [x, y][1..] == [y];
    assert [y][1..] == [];
  }

  /** A bucket holding only `a` stores `a`'s score and trend. */
  lemma SingleEntry(a: NewsArticle, b: Bucket, k: int)
    requires BucketArticles(EndToEndArticles, b) == [a]
    requires a.sentimentScore == k as real / 100.0
    ensures EntryFor(EndToEndArticles, b) == Some(Entry(b, 1, a.sentimentScore, TrendOf(a.sentimentScore)))
  {
    assert Sum([a]) == a.sentimentScore + Sum([]);
    Round2Exact(k);
  }

  /** The technology bucket holds both articles: average 50, neutral. */
  lemma MarketEntry()
    ensures EntryFor(EndToEndArticles, ByMarket("tecnologia")) ==
      Some(Entry(ByMarket("tecnologia"), 2, 50.0, Neutral))
  {
    var articles := EndToEndArticles;
    BucketOfTwo(OnItaly, OnUsa, ByMarket("tecnologia"));
    assert articles[1..] == [OnUsa] && [OnUsa][1..] == [];
    assert Sum([OnUsa]) == 10.0;
    assert Sum(articles) == 100.0;
    Round2Exact(5000);
  }

  /** The market table: one technology entry over both articles, average 50,
      neutral. */
  lemma EndToEndMarkets()
    ensures GenerateReport(EndToEndArticles, EndToEndCrawler).markets ==
      [("tecnologia", Entry(ByMarket("tecnologia"), 2, 50.0, Neutral))]
  {
    var bs := MarketBuckets(EndToEndCrawler.marketAreas);
    assert bs == [ByMarket("tecnologia")];
    TabulateInOrder(EndToEndArticles, bs);
    MarketEntry();
    assert bs[..0] == [];
  }

  /** A table over two buckets with distinct keys that both have articles. */
  lemma TableOfTwo(articles: seq<NewsArticle>, b1: Bucket, b2: Bucket, e1: Entry, e2: Entry)
    requires Key(b1) != Key(b2)
    requires EntryFor(articles, b1) == Some(e1) && EntryFor(articles, b2) == Some(e2)
    ensures Tabulate(articles, [b1, b2]) == [(Key(b1), e1), (Key(b2), e2)]
  {
    var bs := [b1, b2];
    TabulateInOrder(articles, bs);
    assert bs[..1] == [b1] && bs[..1][..0] == [];
    assert Listing(articles, [b1]) == [(Key(b1), e1)];
    assert Listing(articles, bs) == Listing(articles, [b1]) + [(Key(b2), e2)];
  }

  /** The location table: Italy with the 90 article (positive), then the USA
      with the 10 article (negative). */
  lemma EndToEndLocations()
    ensures GenerateReport(EndToEndArticles, EndToEndCrawler).locations ==
      [("italia", Entry(ByLocation("italia"), 1, 90.0, Positive)),
       ("usa", Entry(ByLocation("usa"), 1, 10.0, Negative))]
  {
    BucketOfTwo(OnItaly, OnUsa, ByLocation("italia"));
    BucketOfTwo(OnItaly, OnUsa, ByLocation("usa"));
    SingleEntry(OnItaly, ByLocation("italia"), 9000);
    SingleEntry(OnUsa, ByLocation("usa"), 1000);
    assert LocationBuckets(EndToEndCrawler.locations) == [ByLocation("italia"), ByLocation("usa")];
    TableOfTwo(EndToEndArticles, ByLocation("italia"), ByLocation("usa"),
               Entry(ByLocation("italia"), 1, 90.0, Positive), Entry(ByLocation("usa"), 1, 10.0, Negative));
  }

  /** The crawler's matrix loops visit Italy, then the USA. */
  lemma EndToEndCells()
    ensures Cells(EndToEndCrawler.marketAreas, EndToEndCrawler.locations) ==
      [ByCell("tecnologia", "italia"), ByCell("tecnologia", "usa")]
  {
    var ms, ls := EndToEndCrawler.marketAreas, EndToEndCrawler.locations;
    assert ms[1..] == [] && Cells(ms[1..], ls) == [];
    assert Row("tecnologia", ls) == [ByCell("tecnologia", "italia"), ByCell("tecnologia", "usa")];
  }

  /** Each cell holds its one article. */
  lemma EndToEndCellEntries()
    ensures EntryFor(EndToEndArticles, ByCell("tecnologia", "italia")) ==
      Some(Entry(ByCell("tecnologia", "italia"), 1, 90.0, Positive))
    ensures EntryFor(EndToEndArticles, ByCell("tecnologia", "usa")) ==
      Some(Entry(ByCell("tecnologia", "usa"), 1, 10.0, Negative))
  {
    var c1, c2 := ByCell("tecnologia", "italia"), ByCell("tecnologia", "usa");
    BucketOfTwo(OnItaly, OnUsa, c1);
    BucketOfTwo(OnItaly, OnUsa, c2);
    SingleEntry(OnItaly, c1, 9000);
    SingleEntry(OnUsa, c2, 1000);
  }

  /** The matrix: exactly the two cells that have articles, each with its
      one article's score and trend. */
  lemma EndToEndMatrix()
    ensures GenerateReport(EndToEndArticles, EndToEndCrawler).matrix ==
      [("tecnologia_italia", Entry(ByCell("tecnologia", "italia"), 1, 90.0, Positive)),
       ("tecnologia_usa", Entry(ByCell("tecnologia", "usa"), 1, 10.0, Negative))]
  {
    var c1, c2 := ByCell("tecnologia", "italia"), ByCell("tecnologia", "usa");
    EndToEndCells();
    EndToEndCellEntries();
    assert Key(c1) == "tecnologia_italia" && Key(c2) == "tecnologia_usa";
    assert Key(c1)[11] != Key(c2)[11];
    TableOfTwo(EndToEndArticles, c1, c2, Entry(c1, 1, 90.0, Positive), Entry(c2, 1, 10.0, Negative));
  }

  /** Tracking ignores case: a crawler configured with "TecnoLOGIA" tags a
      text mentioning "Tech" with technology. */
  lemma TrackedInAnyCase()
    ensures "tecnologia" in FindMarketAreas(NewCrawler(["TecnoLOGIA"], []), "Tech")
  {
    var cr := NewCrawler(["TecnoLOGIA"], []);
    assert Lower("TecnoLOGIA") == "tecnologia";
    assert cr.marketAreas[0] == "tecnologia";
    assert Lower("Tech") == MarketKeywords[0].keywords[0];
    assert OccursAt("Tech", "Tech", 0);
    FindIgnoresCase(MarketKeywords, cr.marketAreas, "Tech", 0, 0, "Tech");
  }

  /** No technology keyword occurs in "milano". */
  lemma NoTechnologyInMilano()
    ensures !Mentions(MarketKeywords[0], "milano")
  {
    var ks := MarketKeywords[0].keywords;
    forall j, i | 0 <= j < |ks| && 0 <= i <= |"milano"| - |ks[j]|
      ensures !OccursAt("milano", ks[j], i)
    {
      if j == 3 {
        assert ks[j] == "ai";
        if i == 3 {
          assert "milano"[i + 1] != ks[j][1];
        } else {
          assert "milano"[i] != ks[j][0];
        }
      } else {
        assert "milano"[i] != ks[j][0];
      }
    }
  }

  /** No USA keyword occurs in "milano" or in "tech italia". */
  lemma NoUsaKeyword()
    ensures !Mentions(LocationKeywords[2], "milano")
    ensures !Mentions(LocationKeywords[2], "tech italia")
  {
    var ks := LocationKeywords[2].keywords;
    forall j, i | 0 <= j < |ks| && 0 <= i <= |"milano"| - |ks[j]|
      ensures !OccursAt("milano", ks[j], i)
    {
      assert "milano"[i] != ks[j][0];
    }
    forall j, i | 0 <= j < |ks| && 0 <= i <= |"tech italia"| - |ks[j]|
      ensures !OccursAt("tech italia", ks[j], i)
    {
      assert "tech italia"[i] != ks[j][0];
    }
  }

  /** "Milano" names no tracked market. */
  lemma MilanoHasNoMarket()
    ensures FindMarketAreas(EndToEndCrawler, "Milano") == []
  {
    assert Lower("Milano") == "milano";
    NoTechnologyInMilano();
    EndToEndMarketTagger("Milano");
  }

  /** "Milano" is tagged with Italy and nothing else. */
  lemma MilanoIsItaly()
    ensures FindLocations(EndToEndCrawler, "Milano") == ["italia"]
  {
    assert Lower("Milano") == "milano";
    assert OccursAt("milano", LocationKeywords[0].keywords[3], 0);
    NoUsaKeyword();
    EndToEndLocationTagger("Milano");
  }

  /** The third text of the end-to-end run names Milan but no market, so the
      classifier discards it, whatever the scorer says. */
  lemma ItalyWithoutMarketDiscarded(polarityOf: PolarityScorer)
    ensures Classify(EndToEndCrawler, MilanoCandidate, polarityOf) == None
  {
    MilanoHasNoMarket();
  }

  /** The scenario crawler's market tagger: technology or nothing. */
  lemma EndToEndMarketTagger(text: string)
    ensures FindMarketAreas(EndToEndCrawler, text) ==
      if Mentions(MarketKeywords[0], Lower(text)) then ["tecnologia"] else []
  {
    MarketsFound(Lower(text));
  }

  /** The same over an already lower-cased text. */
  lemma MarketsFound(lowered: string)
    ensures FindIn(MarketKeywords, ["tecnologia"], lowered) ==
      if Mentions(MarketKeywords[0], lowered) then ["tecnologia"] else []
  {
    var kmap, tracked := MarketKeywords, ["tecnologia"];
    var head := FindIn(kmap[..1], tracked, lowered);
    assert kmap[..1][..0] == [] && kmap[..1][0] == kmap[0];
    assert FindIn(kmap[..1][..0], tracked, lowered) == [];
    assert kmap[0].id in tracked;
    assert head == if Mentions(kmap[0], lowered) then ["tecnologia"] else [];
    assert forall i :: 1 <= i < 5 ==> kmap[i].id != "tecnologia";
    assert kmap[..2][..1] == kmap[..1];
    assert FindIn(kmap[..2], tracked, lowered) == head;
    assert kmap[..3][..2] == kmap[..2];
    assert FindIn(kmap[..3], tracked, lowered) == head;
    assert kmap[..4][..3] == kmap[..3];
    assert FindIn(kmap[..4], tracked, lowered) == head;
    assert kmap[..5][..4] == kmap[..4] && kmap[..5] == kmap;
  }

  /** The scenario crawler's location tagger: Italy, then the USA, each when
      one of its keywords occurs. */
  lemma EndToEndLocationTagger(text: string)
    ensures FindLocations(EndToEndCrawler, text) ==
      (if Mentions(LocationKeywords[0], Lower(text)) then ["italia"] else []) +
      (if Mentions(LocationKeywords[2], Lower(text)) then ["usa"] else [])
  {
    LocationsFound(Lower(text));
  }

  /** The same over an already lower-cased text. */
  lemma LocationsFound(lowered: string)
    ensures FindIn(LocationKeywords, ["italia", "usa"], lowered) ==
      (if Mentions(LocationKeywords[0], lowered) then ["italia"] else []) +
      (if Mentions(LocationKeywords[2], lowered) then ["usa"] else [])
  {
    var kmap, tracked := LocationKeywords, ["italia", "usa"];
    var italy := FindIn(kmap[..1], tracked, lowered);
    assert kmap[..1][..0] == [] && kmap[..1][0] == kmap[0];
    assert FindIn(kmap[..1][..0], tracked, lowered) == [];
    assert kmap[0].id in tracked && kmap[2].id in tracked;
    assert italy == if Mentions(kmap[0], lowered) then ["italia"] else [];
    assert forall i :: i in {1, 3, 4, 5} ==> kmap[i].id != "italia" && kmap[i].id != "usa";
    assert kmap[..2][..1] == kmap[..1];
    assert FindIn(kmap[..2], tracked, lowered) == italy;
    assert kmap[..3][..2] == kmap[..2];
    var both := FindIn(kmap[..3], tracked, lowered);
    assert both == italy + if Mentions(kmap[2], lowered) then ["usa"] else [];
    assert kmap[..4][..3] == kmap[..3];
    assert FindIn(kmap[..4], tracked, lowered) == both;
    assert kmap[..5][..4] == kmap[..4];
    assert FindIn(kmap[..5], tracked, lowered) == both;
    assert kmap[..6][..5] == kmap[..5] && kmap[..6] == kmap;
  }

  /** No Italy keyword occurs in "usa tech". */
  lemma NoItalyInUsaTech()
    ensures !Mentions(LocationKeywords[0], "usa tech")
  {
    var ks := LocationKeywords[0].keywords;
    forall j, i | 0 <= j < |ks| && 0 <= i <= |"usa tech"| - |ks[j]|
      ensures !OccursAt("usa tech", ks[j], i)
    {
      assert "usa tech"[i] != ks[j][0];
    }
  }

  /** "Tech Italia" is technology on Italy, not on the USA. */
  lemma TechItaliaTags()
    ensures FindMarketAreas(EndToEndCrawler, "Tech Italia") == ["tecnologia"]
    ensures FindLocations(EndToEndCrawler, "Tech Italia") == ["italia"]
  {
    var lowered := "tech italia";
    LowerTechItalia();
    assert Contains(lowered, MarketKeywords[0].keywords[0]) by {
      assert OccursAt(lowered, MarketKeywords[0].keywords[0], 0);
    }
    assert Contains(lowered, LocationKeywords[0].keywords[0]) by {
      assert OccursAt(lowered, LocationKeywords[0].keywords[0], 5);
    }
    NoUsaKeyword();
    MarketsFound(lowered);
    LocationsFound(lowered);
  }

  /** Lower-casing the first text. */
  lemma LowerTechItalia()
    ensures Lower("Tech Italia") == "tech italia"
  {
  }

  /** "USA Tech" is technology on the USA, not on Italy. */
  lemma UsaTechTags()
    ensures FindMarketAreas(EndToEndCrawler, "USA Tech") == ["tecnologia"]
    ensures FindLocations(EndToEndCrawler, "USA Tech") == ["usa"]
  {
    var lowered := "usa tech";
    LowerUsaTech();
    assert Contains(lowered, MarketKeywords[0].keywords[0]) by {
      assert OccursAt(lowered, MarketKeywords[0].keywords[0], 4);
    }
    assert Contains(lowered, LocationKeywords[2].keywords[0]) by {
      assert OccursAt(lowered, LocationKeywords[2].keywords[0], 0);
    }
    NoItalyInUsaTech();
    MarketsFound(lowered);
    LocationsFound(lowered);
  }

  /** Lower-casing the second text. */
  lemma LowerUsaTech()
    ensures Lower("USA Tech") == "usa tech"
  {
  }

  /** The Italy candidate becomes the Italy article, scored 90. */
  lemma ItalyCandidateKept()
    ensures Classify(EndToEndCrawler, ItalyCandidate, EndToEndScorer) == Some(OnItaly)
  {
    TechItaliaTags();
    Round2Exact(9000);
    assert (0.8 + 1.0) * 50.0 == 9000 as real / 100.0;
  }

  /** The USA candidate becomes the USA article, scored 10. */
  lemma UsaCandidateKept()
    ensures Classify(EndToEndCrawler, UsaCandidate, EndToEndScorer) == Some(OnUsa)
  {
    UsaTechTags();
    Round2Exact(1000);
    assert (-0.8 + 1.0) * 50.0 == 1000 as real / 100.0;
  }

  /** The candidate loop keeps the Italy and USA candidates, scored 90 and
      10, and discards "Milano". */
  lemma EndToEndClassified()
    ensures ClassifyAll(EndToEndCrawler, EndToEndCandidates, EndToEndScorer) == EndToEndArticles
  {
    var cr, cs, p := EndToEndCrawler, EndToEndCandidates, EndToEndScorer;
    ItalyCandidateKept();
    UsaCandidateKept();
    ItalyWithoutMarketDiscarded(p);
    assert cs[1..] == [UsaCandidate, MilanoCandidate];
    assert cs[1..][1..] == [MilanoCandidate] && [MilanoCandidate][1..] == [];
    assert ClassifyAll(cr, [MilanoCandidate], p) == [];
  }

  /** The whole run on that one front page: a report over the two kept
      articles, with the tables of the three lemmas above. */
  lemma EndToEndRun()
    ensures RunReport(EndToEndCrawler, [Some(EndToEndCandidates)], EndToEndScorer) ==
      Some(Report(2,
        [("tecnologia", Entry(ByMarket("tecnologia"), 2, 50.0, Neutral))],
        [("italia", Entry(ByLocation("italia"), 1, 90.0, Positive)),
         ("usa", Entry(ByLocation("usa"), 1, 10.0, Negative))],
        [("tecnologia_italia", Entry(ByCell("tecnologia", "italia"), 1, 90.0, Positive)),
         ("tecnologia_usa", Entry(ByCell("tecnologia", "usa"), 1, 10.0, Negative))]))
  {
    var sites := [Some(EndToEndCandidates)];
    EndToEndClassified();
    assert Take(EndToEndCandidates, MaxCandidates) == EndToEndCandidates;
    assert sites[1..] == [];
    assert Crawl(EndToEndCrawler, sites, EndToEndScorer) == EndToEndArticles;
    EndToEndMarkets();
    EndToEndLocations();
    EndToEndMatrix();
  }

  /** The ranking of the end-to-end matrix puts the Italy cell (90) before
      the USA cell (10). */
  lemma EndToEndRanking()
    ensures var e1 := ("tecnologia_italia", Entry(ByCell("tecnologia", "italia"), 1, 90.0, Positive));
      var e2 := ("tecnologia_usa", Entry(ByCell("tecnologia", "usa"), 1, 10.0, Negative));
      TopCorrelations(GenerateReport(EndToEndArticles, EndToEndCrawler).matrix) == [e1, e2]
  {
    var e1 := ("tecnologia_italia", Entry(ByCell("tecnologia", "italia"), 1, 90.0, Positive));
    var e2 := ("tecnologia_usa", Entry(ByCell("tecnologia", "usa"), 1, 10.0, Negative));
    EndToEndMatrix();
    assert SortDesc([e2]) == [e2];
    assert [e1, e2][1..] == [e2];
    assert SortDesc([e1, e2]) == Insert(e1, [e2]) == [e1, e2];
  }

  /** Equal averages keep their matrix order in the ranking. */
  lemma RankingTiesKeepOrder()
    ensures var e1 := ("tecnologia_italia", Entry(ByCell("tecnologia", "italia"), 1, 50.0, Neutral));
      var e2 := ("tecnologia_usa", Entry(ByCell("tecnologia", "usa"), 1, 50.0, Neutral));
      TopCorrelations([e1, e2]) == [e1, e2]
  {
    var e1 := ("tecnologia_italia", Entry(ByCell("tecnologia", "italia"), 1, 50.0, Neutral));
    var e2 := ("tecnologia_usa", Entry(ByCell("tecnologia", "usa"), 1, 50.0, Neutral));
    assert SortDesc([e2]) == [e2];
    assert [e1, e2][1..] == [e2];
    assert SortDesc([e1, e2]) == Insert(e1, [e2]);
  }

  /** Matching is plain substring search: the keyword "ai" matches inside
      "Email", so an email-related text is tagged as technology. */
  lemma SubstringMatchesInsideWords()
    ensures "tecnologia" in FindCategories(MarketKeywords, ["tecnologia"], "Email")
  {
    assert OccursAt("Email", "ai", 2);
    FindIgnoresCase(MarketKeywords, ["tecnologia"], "Email", 0, 3, "ai");
  }

  /** "ue" (the European Union) matches inside "questo", so the text is
      tagged with Europe. */
  lemma EuropeInsideWords()
    ensures "europa" in FindCategories(LocationKeywords, ["europa"], "questo")
  {
    assert Lower("questo") == "questo";
    assert OccursAt("questo", "ue", 1);
    FindIgnoresCase(LocationKeywords, ["europa"], "questo", 1, 2, "ue");
  }

  /** An id tracked without a keyword-map entry, such as the configured
      "salute", is never reported. */
  lemma UnmappedIdNeverReported(text: string)
    ensures "salute" !in FindCategories(MarketKeywords, ["tecnologia", "salute"], text)
  {
    assert Ids(MarketKeywords) == ["tecnologia", "finanza", "energia", "automotive", "immobiliare"];
    FindOnlyKnownIds(MarketKeywords, ["tecnologia", "salute"], text, "salute");
  }

  /** A 250-character content gets a 203-character preview ending in "...". */
  lemma LongContentPreview(content: string)
    requires |content| == 250
    ensures |ContentPreview(content)| == 203
    ensures ContentPreview(content)[200..] == "..."
  {
  }
}
