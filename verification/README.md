# Market-area crawler: classification and aggregation core

This project is a Dafny model of the pure core of the market-area sentiment crawler:

- **Keyword tagger** (`find_market_areas`, `find_locations`).
  - The text is lower-cased.
  - The crawler's hard-coded keyword maps are walked in insertion order.
  - A category id is reported when the crawler tracks it and any of its keywords is a plain substring of the text.
- **Relevance filter** of `analyze_website`.
  - A candidate becomes a `NewsArticle` only if it mentions at least one tracked market and at least one tracked location.
  - Its content is cut to 1000 characters.
  - Its score is the polarity normalised to [0, 100], or 50.0 when the scorer fails.
- **Report aggregation** (`generate_market_report`). Per market, per location and per market-location pair, the report stores:
  - the article count;
  - the mean score, rounded to two decimals;
  - a positive/neutral/negative trend computed from the exact mean.
- **Run script helpers**:
  - the 200-character content preview and the per-article summary record;
  - the "top 5 correlations" ranking, a stable descending sort truncated to five;
  - the trend arrow.

Modules, in dependency order:

- `Seqs`: `Option`, `Take`, duplicate-freedom and subsequences.
- `Text`: ASCII lower-casing and substring search.
- `Keywords`: the two keyword maps as ordered (id, keywords) lists.
- `Tagger`: the tagger.
- `Sentiment`: the normalisation and `round(x, 2)`.
- `Articles`: article construction and the candidate loop.
- `Stats`: sum, mean and trend.
- `Dict`: Python dicts as insertion-ordered association lists.
- `Report`: the three tables.
- `Summary`: the run script's helpers.
- `Scenarios`: concrete runs of the model. Its end-to-end scenario is a crawler for technology, Italy and the USA that reads one front page. The page has three candidate texts, "Tech Italia", "USA Tech" and "Milano", and a stub scorer returns polarity 0.8, -0.8 and 0 for them. The classifier keeps the first two (scores 90 and 10) and discards "Milano", which names no market. The run's report then has:
  - one market entry (count 2, mean 50, neutral);
  - two location entries;
  - exactly two matrix cells.

Design choices:

- **Dicts.** Python dicts are modelled as association lists in insertion order. Overwriting a key keeps its position, as in Python. The order matters because ties in the top-5 ranking are broken by matrix insertion order.
- **Scores.** Scores are exact `real`s.
  - `round(x, 2)` is modelled as exact half-to-even rounding to hundredths.
  - The scorer (TextBlob) becomes a parameter `PolarityScorer = string -> Option<real>`, where `None` stands for an exception.
- **Where config.py and main.py differ, the model follows main.py:**
  - The keyword maps used are the ones hard-coded in `main.py:45-61`, not those of `config.py`. The configuration's keyword lists are never read by the crawler.
  - The 60/40 trend thresholds and the 1000/200/20/5 limits are the literals in the code.
  - The matrix key is `f"{market}_{location}"`. A market id containing `_` can make two pairs collide, and the later pair then overwrites the earlier. The model keeps this behaviour (`Report.MatrixKeyCollision`). The matrix lemmas assume underscore-free market ids, which the code's configured ids are.

## Model

| member | source | states |
|---|---|---|
| Keywords.MarketKeywordsWellFormed | main.py:45-51 | the market keyword map has unique ids and only non-empty keywords, so tagging can never report an id twice or match empty text |
| Keywords.LocationKeywordsWellFormed | main.py:54-61 | the same for the location keyword map |
| Tagger.NewCrawler | main.py:39-41 | every stored tracked id is in lower-case normal form, the form of the keyword maps' ids it is compared with |
| Tagger.NewCrawlerTracks | main.py:39-41 | an id is tracked iff it is the lower-case form of one of the configured ids |
| Tagger.TrackingIgnoresCase | main.py:39-41 | configured id lists that agree up to case give crawlers that tag every text with the same markets and locations |
| Tagger.FindCategoriesLoop | main.py:105-117 | the nested loop with its early `break` computes exactly the reference tagger; its output is duplicate-free, in keyword-map order, and contains an id iff it is tracked and one of its keywords occurs in the lower-cased text |
| Tagger.FindMembership | main.py:110-115 | an id is reported iff it is tracked and some keyword-map entry with that id has a keyword that is a substring of the text |
| Tagger.FindInKeyOrder | main.py:110 | the reported ids form a subsequence of the keyword map's keys |
| Tagger.FindNoDuplicates | main.py:114-115 | with unique map keys, no id is reported twice |
| Tagger.FindIgnoresCase | main.py:108-113 | a tracked category is found when the raw text contains any spelling whose lower-case form is one of its keywords |
| Tagger.FindMonotone | main.py:113 | every category found in a text is found in any text containing it |
| Tagger.FindAppendMonotone | main.py:113 | appending text never removes a category |
| Tagger.FindEmptyText | main.py:119-131 | the empty text is tagged with nothing, because every keyword is non-empty |
| Tagger.FindOnlyKnownIds | main.py:110-111 | a tracked id with no keyword-map entry is never reported |
| Sentiment.Round2Close | main.py:100 | rounding to two decimals moves a value by at most 0.005 |
| Sentiment.Round2Monotone | main.py:100 | rounding to two decimals preserves order |
| Sentiment.AnalyzeSentimentRange | main.py:94-103 | a polarity in [-1, 1] gives a score in [0, 100]; polarity 0 and a scorer failure both give exactly 50 |
| Sentiment.AnalyzeSentimentMonotone | main.py:99-100 | a higher polarity never gets a lower score |
| Articles.Classify | main.py:217-233 | a candidate yields an article iff both its market and its location lists are non-empty |
| Articles.ClassifyKept | main.py:225-231 | a kept article's title and url come from the candidate; its content is the first min(n, 1000) characters of the analysed text; its tag lists equal the tagger outputs; its score is the normalised score of the full text |
| Articles.ClassifyRelevant | main.py:218-231 | a kept article has non-empty, duplicate-free tag lists of tracked, known ids, content of at most 1000 characters and a score in [0, 100] |
| Articles.ClassifyDiscards | main.py:222 | a text without a market or without a location produces no article |
| Articles.ClassifyAllSound | main.py:208-242 | the candidate loop outputs no more articles than candidates; each output is the classification of some candidate and is relevant |
| Articles.ClassifyAllSnoc | main.py:208-235 | one more candidate appends exactly its own article, if it classifies, to the loop's output, so articles come out once each and in candidate order |
| Articles.ClassifyAllComplete | main.py:208-235 | every candidate that classifies appears among the loop's articles |
| Articles.ClassifyAllShorter | main.py:208-235 | the candidate loop never outputs more articles than it has candidates, whatever the scorer returns |
| Articles.AnalyzeWebsiteBounded | main.py:195-205 | a site contributes at most 20 articles whatever the scorer returns, and none when its front page could not be fetched |
| Stats.TrendOf | main.py:262 | the trend is neutral iff the mean lies in the closed band [40, 60] |
| Stats.TrendMonotone | main.py:262 | a higher mean never gets a lower trend |
| Stats.LabelInjective | main.py:262 | the three trend labels are distinct |
| Stats.MeanBetween | main.py:258 | scores within [lo, hi] have a mean within [lo, hi] |
| Stats.MeanWithinScores | main.py:258 | the mean lies between the lowest and the highest score of its articles |
| Dict.Put | main.py:259 | assigning a key adds it at the end of the key order when it was absent and leaves the key order unchanged otherwise |
| Dict.PutGet | main.py:259 | after a dict assignment the key is present and maps to the new value |
| Dict.PutOther | main.py:259 | a dict assignment leaves every other key's presence and value unchanged |
| Dict.PutAppends | main.py:259 | assigning a new key appends it at the end of the insertion order |
| Dict.PutKeepsKeysUnique | main.py:259 | on a dict with unique keys, assignment keeps the keys unique |
| Report.BucketArticlesCount | main.py:256 | the comprehension keeps each article that passes the filter, with its full multiplicity, and nothing else |
| Report.BucketNonEmpty | main.py:256-257 | a subset is non-empty iff some article passes its filter |
| Report.BucketCountMonotone | main.py:280-283 | a stricter filter selects no more articles |
| Report.CellCountBounded | main.py:280-283 | a market-location subset is no larger than the market's subset or the location's subset |
| Report.TabulateEntries | main.py:255-263 | every stored pair is the entry of a visited id whose subset is non-empty, stored under that id's key |
| Report.TabulateKeysUnique | main.py:255-263 | no table repeats a key |
| Report.TabulateHasKey | main.py:255-263 | a key is present iff some visited id with that key has a non-empty subset |
| Report.TabulateGet | main.py:255-263 | when keys do not collide, the value stored under an id's key is that id's entry |
| Report.TabulateInOrder | main.py:255-263 | with collision-free keys, the table lists the non-empty entries in visiting order |
| Report.CellsMembers | main.py:277-278 | the matrix loops visit exactly the pairs of a tracked market and a tracked location |
| Report.CellsNoDup | main.py:277-278 | with distinct ids, no pair is visited twice |
| Report.MatrixKeyInjective | main.py:279 | for an underscore-free market, the matrix key determines the pair |
| Report.MatrixKeyCollision | main.py:279 | two different pairs can share a key when a market id contains an underscore |
| Report.ReportMarkets | main.py:255-263 | a market has an entry iff it is tracked and some article carries it; the entry counts exactly those articles, stores their rounded mean and takes the trend from the exact mean |
| Report.ReportLocations | main.py:266-274 | the same for locations |
| Report.ReportMatrixKeys | main.py:277-292 | a pair has a matrix entry iff both ids are tracked and some article carries both |
| Report.ReportMatrixEntry | main.py:284-292 | that entry names its market and location and counts at least one article carrying both |
| Report.ReportMatrixCountBounded | main.py:277-292 | a matrix entry's count is at most its market's count and at most its location's count, and both of those entries exist |
| Report.ReportEntriesCounted | main.py:244-294 | `total_articles` is the number of articles; every entry counts between 1 and that many; no table repeats a key |
| Report.ReportAveragesInRange | main.py:258-261 | scores in [0, 100] give stored averages in [0, 100] in all three tables |
| Report.ReportMatrixOrder | main.py:277-292 | with distinct ids, matrix entries are in market-major, location-minor order, one per non-empty pair |
| Report.RunReportSound | main.py:308-321 | a report is produced iff some site yields a relevant article; it then covers all of them, and the averages of all three tables lie in [0, 100] |
| Report.CrawlRelevant | main.py:311-314 | every collected article passed the relevance filter |
| Summary.PreviewShape | run_crawler.py:64-66 | a preview is at most 203 characters long and starts with the content's first (up to) 200 characters; it differs from the content only when the content is longer than 200, and then ends in "..." right after those 200 characters |
| Summary.SummarizeAll | run_crawler.py:51-67 | there is one summary record per article |
| Summary.SummariesCopyFields | run_crawler.py:51-67 | each record copies the title, url, tag lists and score of its article unchanged and previews its content |
| Summary.SortDescSorted | run_crawler.py:119-121 | the sort's output is non-increasing in average |
| Summary.SortDescPermutes | run_crawler.py:119-121 | the sort's output is a permutation of the matrix items |
| Summary.SortDescStable | run_crawler.py:119-121 | items with equal averages keep their matrix order |
| Summary.TopCorrelationsSize | run_crawler.py:119-123 | the ranking lists min(5, n) items, all from the matrix, and the whole matrix when it has at most 5 entries |
| Summary.TopCorrelationsRanked | run_crawler.py:119-123 | the ranking is non-increasing, and no omitted entry has a larger average than a listed one |
| Summary.TopCorrelationsStable | run_crawler.py:119-123 | the listed entries with a given average are a prefix of the matrix's entries with that average, in matrix order |
| Summary.TopCorrelationsTieOrder | run_crawler.py:119-123 | on a generated report, ties in the ranking follow market-major, location-minor order |
| Summary.TrendEmojiOfTrend | run_crawler.py:99-101 | positive gets the rising chart, negative the falling chart, neutral the flat arrow; different trends get different arrows |
| Scenarios.TrendThresholds | main.py:262 | 60 and 40 are neutral; 60.01 is positive and 39.99 negative |
| Scenarios.TrendUsesExactMean | main.py:258-262 | a mean of 60.004 is stored as 60.0 but labelled positive |
| Scenarios.MeanOfTwo | main.py:255-263 | technology articles scored 80 and 40 give count 2, average 60.0, neutral |
| Scenarios.EndToEndMarkets | main.py:255-263 | in the end-to-end scenario, the market table holds technology only: count 2, average 50, neutral |
| Scenarios.EndToEndLocations | main.py:266-274 | in the end-to-end scenario, Italy gets 90/positive and the USA 10/negative, in that order |
| Scenarios.EndToEndMatrix | main.py:277-292 | in the end-to-end scenario, the matrix has exactly the two cells technology-Italy (90, positive) and technology-USA (10, negative) |
| Scenarios.TrackedInAnyCase | main.py:39-41 | a crawler configured with "TecnoLOGIA" tags the text "Tech" with technology |
| Scenarios.TechItaliaTags | main.py:105-131 | the text "Tech Italia" is tagged technology and Italy only |
| Scenarios.UsaTechTags | main.py:105-131 | the text "USA Tech" is tagged technology and the USA only |
| Scenarios.EndToEndClassified | main.py:208-242 | the candidate loop over "Tech Italia", "USA Tech" and "Milano" keeps exactly the first two, scored 90 and 10, in that order |
| Scenarios.EndToEndRun | main.py:308-321 | the whole run over that front page produces a report of 2 articles: technology 2/50/neutral; Italy 90/positive then the USA 10/negative; and exactly the cells technology-Italy 90/positive and technology-USA 10/negative |
| Scenarios.ItalyWithoutMarketDiscarded | main.py:218-222 | the text "Milano" names Italy but no market, so it yields no article |
| Scenarios.MilanoIsItaly | main.py:119-131 | "Milano" is tagged with Italy and nothing else |
| Scenarios.EndToEndRanking | run_crawler.py:119-123 | the ranking of the end-to-end report's matrix is technology-Italy (90) then technology-USA (10) |
| Scenarios.RankingTiesKeepOrder | run_crawler.py:119-121 | equal averages keep their matrix order in the ranking |
| Scenarios.SubstringMatchesInsideWords | main.py:113 | the keyword "ai" matches inside "Email", tagging it as technology |
| Scenarios.EuropeInsideWords | main.py:127 | the keyword "ue" matches inside "questo", tagging it as Europe |
| Scenarios.UnmappedIdNeverReported | main.py:110-111 | the configured id "salute", which has no keyword entry in the crawler, is never reported |
| Scenarios.LongContentPreview | run_crawler.py:64-66 | a 250-character content gets a 203-character preview ending in "..." |

## Left out

- HTTP fetching, status handling and the latin-1 fallback (main.py:133-151), the session timeout and the async context manager (main.py:63-74). These are network I/O. A front page that could not be fetched is the input `None`. A candidate page that could not be fetched or came back empty is `page == None`.
- HTML text extraction and candidate selection (main.py:76-92, 153-194). These are BeautifulSoup parsing. Candidates are inputs. Only the cap of 20 candidates per page is modelled (`Articles.MaxCandidates`).
- The per-candidate exception handler (main.py:238-240). The only failure inside the modelled slice is the scorer's, and `analyze_sentiment` catches it itself.
- TextBlob polarity (main.py:97). It is the `PolarityScorer` parameter. Its [-1, 1] range is a precondition (`PolarityInRange`).
- Binary floating point. Scores and means are exact reals, and `round(x, 2)` rounds the exact value half-to-even. Python rounds the nearest binary double instead, so values whose decimal tie is not exactly representable may round differently.
- `datetime.now()` timestamps, logging, JSON file writes and every `print`, including the `.1f` formatting and `upper()` of `print_summary` (main.py:247, 320-346; run_crawler.py:14-85, 89-129).
- config.py is not part of this model. Its keyword maps and thresholds are not read by the crawler. Its id `"salute"` appears only as an example of an id tracked without a keyword entry.
- Tagger.FindIgnoresCase: case folding is ASCII-only. Python's `str.lower` also folds non-ASCII letters, which this model leaves unchanged.
- Report.ReportMatrixKeys: assumes no tracked market id contains `_`. Otherwise two pairs can share a key and the later one overwrites the earlier (shown by `Report.MatrixKeyCollision`).
- Report.ReportMatrixEntry: assumes underscore-free market ids, for the same reason.
- Report.ReportMatrixCountBounded: assumes underscore-free market ids, for the same reason.
- Report.ReportMatrixOrder: assumes distinct, underscore-free ids. With a repeated id, Python's overwrite keeps the first position but stores the last value.
- Summary.TopCorrelationsTieOrder: assumes distinct, underscore-free ids, as `Report.ReportMatrixOrder` does.
