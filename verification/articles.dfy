/** The relevance filter of `analyze_website`: each candidate's text is
    tagged against both vocabularies, and only candidates with at least one
    market and at least one location become articles. */
module Articles {
  import opened Seqs
  import opened Text
  import opened Keywords
  import opened Tagger
  import opened Sentiment

  /** A kept article (`NewsArticle`), without its discovery timestamp. */
  datatype NewsArticle = NewsArticle(
    title: string,
    content: string,
    url: string,
    marketAreas: seq<string>,
    locations: seq<string>,
    sentimentScore: real)

  /** A candidate extracted from a site's front page. `page` is the text of
      the candidate's own page when that page was fetched with a non-empty
      body; otherwise the front-page preview is analysed instead. */
  datatype Candidate = Candidate(title: string, url: string, preview: string, page: Option<string>)

  /** Kept articles store at most this many characters of content. */
  const MaxContent: nat := 1000

  /** At most this many candidates are taken from one front page. */
  const MaxCandidates: nat := 20

  /** The text that gets tagged and scored. */
  function AnalysedText(c: Candidate): string
  {
    match c.page
    case Some(t) => t
    case None => c.preview
  }

  /** The scorer's outcome on a text: a polarity, or `None` when it raises. */
  type PolarityScorer = string -> Option<real>

  /** One iteration of the candidate loop: the candidate becomes an article
      iff both tag lists are non-empty. */
  function Classify(cr: Crawler, c: Candidate, polarityOf: PolarityScorer): (r: Option<NewsArticle>)
    ensures r.Some? <==> FindMarketAreas(cr, AnalysedText(c)) != [] && FindLocations(cr, AnalysedText(c)) != []
  {
    var text := AnalysedText(c);
    var markets := FindMarketAreas(cr, text);
    var locations := FindLocations(cr, text);
    if markets != [] && locations != [] then
      Some(NewsArticle(c.title, Take(text, MaxContent), c.url, markets, locations,
                       AnalyzeSentiment(polarityOf(text))))
    else
      None
  }

  /** The candidate loop over one page's candidates, in order. */
  function ClassifyAll(cr: Crawler, cs: seq<Candidate>, polarityOf: PolarityScorer): seq<NewsArticle>
    decreases |cs|
  {
    if cs == [] then []
    else
      var rest := ClassifyAll(cr, cs[1..], polarityOf);
      match Classify(cr, cs[0], polarityOf)
      case Some(a) => [a] + rest
      case None => rest
  }

  /** `analyze_website`: a front page that could not be fetched yields no
      articles; otherwise its first 20 candidates are classified. */
  function AnalyzeWebsite(cr: Crawler, frontPage: Option<seq<Candidate>>, polarityOf: PolarityScorer): seq<NewsArticle>
  {
    match frontPage
    case None => []
    case Some(cs) => ClassifyAll(cr, Take(cs, MaxCandidates), polarityOf)
  }

  /** The run loop: the articles of every site, concatenated in site order. */
  function Crawl(cr: Crawler, sites: seq<Option<seq<Candidate>>>, polarityOf: PolarityScorer): seq<NewsArticle>
    decreases |sites|
  {
    if sites == [] then []
    else AnalyzeWebsite(cr, sites[0], polarityOf) + Crawl(cr, sites[1..], polarityOf)
  }

  /** Every polarity the scorer returns lies in [-1, 1]. */
  ghost predicate PolarityInRange(polarityOf: PolarityScorer)
  {
    forall t :: polarityOf(t).Some? ==> -1.0 <= polarityOf(t).value <= 1.0
  }

  /** What holds of every article the filter keeps: non-empty, duplicate-free
      tag lists drawn from the tracked ids, and a score in [0, 100]. */
  ghost predicate Relevant(cr: Crawler, a: NewsArticle)
  {
    && a.marketAreas != [] && a.locations != []
    && NoDup(a.marketAreas) && NoDup(a.locations)
    && (forall m :: m in a.marketAreas ==> m in cr.marketAreas && m in Ids(MarketKeywords))
    && (forall l :: l in a.locations ==> l in cr.locations && l in Ids(LocationKeywords))
    && |a.content| <= MaxContent
    && 0.0 <= a.sentimentScore <= 100.0
  }

  /** A kept article is exactly what the source builds: title and url from
      the candidate, content the first at most 1000 characters of the analysed
      text, tag lists the tagger's outputs, and the normalised score of the
      full text. */
  lemma ClassifyKept(cr: Crawler, c: Candidate, polarityOf: PolarityScorer)
    requires Classify(cr, c, polarityOf).Some?
    ensures var a := Classify(cr, c, polarityOf).value;
      && a.title == c.title && a.url == c.url
      && |a.content| == (if |AnalysedText(c)| <= MaxContent then |AnalysedText(c)| else MaxContent)
      && a.content == AnalysedText(c)[..|a.content|]
      && a.marketAreas == FindMarketAreas(cr, AnalysedText(c))
      && a.locations == FindLocations(cr, AnalysedText(c))
      && a.sentimentScore == AnalyzeSentiment(polarityOf(AnalysedText(c)))
  {
  }

  /** Kept articles satisfy the article invariant. */
  lemma ClassifyRelevant(cr: Crawler, c: Candidate, polarityOf: PolarityScorer)
    requires PolarityInRange(polarityOf)
    requires Classify(cr, c, polarityOf).Some?
    ensures Relevant(cr, Classify(cr, c, polarityOf).value)
  {
    var text := AnalysedText(c);
    var lowered := Lower(text);
    MarketKeywordsWellFormed();
    LocationKeywordsWellFormed();
    FindMembership(MarketKeywords, cr.marketAreas, lowered);
    FindMembership(LocationKeywords, cr.locations, lowered);
    FindNoDuplicates(MarketKeywords, cr.marketAreas, lowered);
    FindNoDuplicates(LocationKeywords, cr.locations, lowered);
    FindInKeyOrder(MarketKeywords, cr.marketAreas, lowered);
    FindInKeyOrder(LocationKeywords, cr.locations, lowered);
    SubsequenceMembers(FindIn(MarketKeywords, cr.marketAreas, lowered), Ids(MarketKeywords));
    SubsequenceMembers(FindIn(LocationKeywords, cr.locations, lowered), Ids(LocationKeywords));
    AnalyzeSentimentRange(polarityOf(text));
  }

  /** The discard rule: text with a market but no location keyword (or the
      reverse) produces no article. */
  lemma ClassifyDiscards(cr: Crawler, c: Candidate, polarityOf: PolarityScorer)
    requires FindMarketAreas(cr, AnalysedText(c)) == [] || FindLocations(cr, AnalysedText(c)) == []
    ensures Classify(cr, c, polarityOf) == None
  {
  }

  /** Every output article of the candidate loop is the classification of
      some candidate, no more articles than candidates come out, and all of
      them are relevant. */
  lemma {:induction false} ClassifyAllSound(cr: Crawler, cs: seq<Candidate>, polarityOf: PolarityScorer)
    requires PolarityInRange(polarityOf)
    ensures |ClassifyAll(cr, cs, polarityOf)| <= |cs|
    ensures forall a :: a in ClassifyAll(cr, cs, polarityOf) ==>
      Relevant(cr, a) && exists i :: 0 <= i < |cs| && Classify(cr, cs[i], polarityOf) == Some(a)
    decreases |cs|
  {
    if cs != [] {
      ClassifyAllSound(cr, cs[1..], polarityOf);
      var rest := ClassifyAll(cr, cs[1..], polarityOf);
      forall a | a in rest
        ensures exists i :: 0 <= i < |cs| && Classify(cr, cs[i], polarityOf) == Some(a)
      {
        var i :| 0 <= i < |cs[1..]| && Classify(cr, cs[1..][i], polarityOf) == Some(a);
        assert cs[i + 1] == cs[1..][i];
      }
      if Classify(cr, cs[0], polarityOf).Some? {
        ClassifyRelevant(cr, cs[0], polarityOf);
      }
    }
  }

  /** One more candidate appends its article, if it has one, to the loop's
      output: the loop keeps exactly the candidates that classify, in order
      and each once. */
  lemma {:induction false} ClassifyAllSnoc(cr: Crawler, cs: seq<Candidate>, c: Candidate, polarityOf: PolarityScorer)
    ensures ClassifyAll(cr, cs + [c], polarityOf) ==
      ClassifyAll(cr, cs, polarityOf) + match Classify(cr, c, polarityOf)
                                        case Some(a) => [a]
                                        case None => []
    decreases |cs|
  {
    if cs == [] {
      assert [] + [c] == [c];
      assert [c][1..] == [];
    } else {
      assert (cs + [c])[0] == cs[0];
      assert (cs + [c])[1..] == cs[1..] + [c];
      ClassifyAllSnoc(cr, cs[1..], c, polarityOf);
    }
  }

  /** Every candidate that classifies shows up among the loop's articles. */
  lemma {:induction false} ClassifyAllComplete(cr: Crawler, cs: seq<Candidate>, polarityOf: PolarityScorer, i: int)
    requires 0 <= i < |cs|
    requires Classify(cr, cs[i], polarityOf).Some?
    ensures Classify(cr, cs[i], polarityOf).value in ClassifyAll(cr, cs, polarityOf)
    decreases |cs|
  {
    if i > 0 {
      assert cs[1..][i - 1] == cs[i];
      ClassifyAllComplete(cr, cs[1..], polarityOf, i - 1);
    }
  }

  /** A site contributes at most 20 articles, and a site whose front page
      could not be fetched contributes none. */
  lemma AnalyzeWebsiteBounded(cr: Crawler, frontPage: Option<seq<Candidate>>, polarityOf: PolarityScorer)
    ensures |AnalyzeWebsite(cr, frontPage, polarityOf)| <= MaxCandidates
    ensures frontPage == None ==> AnalyzeWebsite(cr, frontPage, polarityOf) == []
  {
    if frontPage.Some? {
      ClassifyAllShorter(cr, Take(frontPage.value, MaxCandidates), polarityOf);
    }
  }

  /** The candidate loop never outputs more articles than it has candidates,
      whatever the scorer does. */
  lemma {:induction false} ClassifyAllShorter(cr: Crawler, cs: seq<Candidate>, polarityOf: PolarityScorer)
    ensures |ClassifyAll(cr, cs, polarityOf)| <= |cs|
    decreases |cs|
  {
    if cs != [] {
      ClassifyAllShorter(cr, cs[1..], polarityOf);
    }
  }
}
