/** The crawler's own keyword maps: for each category id, the keyword phrases
    whose presence in a text tags the text with that category. The order of
    the entries is the order in which the tagger visits them. */
module Keywords {
  import opened Seqs
  import opened Text

  datatype Category = Category(id: string, keywords: seq<string>)

  /** An ordered keyword map (a Python dict literal). */
  type KeywordMap = seq<Category>

  /** The category ids of a keyword map, in map order. */
  function Ids(kmap: KeywordMap): seq<string>
  {
    seq(|kmap|, i requires 0 <= i < |kmap| => kmap[i].id)
  }

  /** Every keyword of a category is a non-empty phrase. */
  predicate KeywordsOk(c: Category)
  {
    forall j :: 0 <= j < |c.keywords| ==> c.keywords[j] != ""
  }

  /** Dict keys are unique and every keyword is non-empty. */
  predicate WellFormed(kmap: KeywordMap)
  {
    && NoDup(Ids(kmap))
    && forall i :: 0 <= i < |kmap| ==> KeywordsOk(kmap[i])
  }

  /** Market keywords, in the crawler's order. */
  const MarketKeywords: KeywordMap := [
    Category("tecnologia", ["tech", "tecnologia", "software", "ai", "intelligenza artificiale", "startup"]),
    Category("finanza", ["finanza", "banking", "banche", "investimenti", "mercati finanziari"]),
    Category("energia", ["energia", "petrolio", "gas", "rinnovabili", "solare", "eolico"]),
    Category("automotive", ["auto", "automotive", "veicoli", "trasporti", "mobilità"]),
    Category("immobiliare", ["immobiliare", "real estate", "case", "proprietà", "edilizia"])
  ]

  /** Location keywords, in the crawler's order. */
  const LocationKeywords: KeywordMap := [
    Category("italia", ["italia", "italy", "romano", "milano", "napoli", "torino"]),
    Category("europa", ["europa", "europe", "ue", "european union", "bruxelles"]),
    Category("usa", ["usa", "america", "stati uniti", "washington", "new york"]),
    Category("cina", ["cina", "china", "beijing", "shanghai", "hong kong"]),
    Category("giappone", ["giappone", "japan", "tokyo", "osaka"]),
    Category("germania", ["germania", "germany", "berlino", "monaco"])
  ]

  /** The built-in market map has unique keys. */
  lemma MarketIdsUnique()
    ensures NoDup(Ids(MarketKeywords))
  {
    assert Ids(MarketKeywords) == ["tecnologia", "finanza", "energia", "automotive", "immobiliare"];
  }

  /** Every built-in market keyword is non-empty. */
  lemma MarketKeywordsNonEmpty()
    ensures forall i :: 0 <= i < |MarketKeywords| ==> KeywordsOk(MarketKeywords[i])
  {
    var m := MarketKeywords;
    assert KeywordsOk(m[0]);
    assert KeywordsOk(m[1]);
    assert KeywordsOk(m[2]);
    assert KeywordsOk(m[3]);
    assert KeywordsOk(m[4]);
  }

  /** The built-in market map has unique keys and non-empty keywords. */
  lemma MarketKeywordsWellFormed()
    ensures WellFormed(MarketKeywords)
  {
    MarketIdsUnique();
    MarketKeywordsNonEmpty();
  }

  /** The built-in location map has unique keys. */
  lemma LocationIdsUnique()
    ensures NoDup(Ids(LocationKeywords))
  {
    assert Ids(LocationKeywords) == ["italia", "europa", "usa", "cina", "giappone", "germania"];
  }

  /** Every built-in location keyword is non-empty. */
  lemma LocationKeywordsNonEmpty()
    ensures forall i :: 0 <= i < |LocationKeywords| ==> KeywordsOk(LocationKeywords[i])
  {
    var m := LocationKeywords;
    assert KeywordsOk(m[0]);
    assert KeywordsOk(m[1]);
    assert KeywordsOk(m[2]);
    assert KeywordsOk(m[3]);
    assert KeywordsOk(m[4]);
    assert KeywordsOk(m[5]);
  }

  /** The built-in location map has unique keys and non-empty keywords. */
  lemma LocationKeywordsWellFormed()
    ensures WellFormed(LocationKeywords)
  {
    LocationIdsUnique();
    LocationKeywordsNonEmpty();
  }
}
