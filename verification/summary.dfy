/** The run script's summary helpers: the per-article summary record with its
    200-character content preview, the "top 5" market-location ranking, and
    the trend arrow printed next to each entry. */
module Summary {
  import opened Seqs
  import opened Articles
  import opened Stats
  import opened Dict
  import opened Report

  /** Characters of content kept in a preview before the ellipsis. */
  const PreviewLength: nat := 200

  /** The ranking lists at most this many matrix entries. */
  const TopCount: nat := 5

  /** `content[:200] + '...' if len(content) > 200 else content`. */
  function ContentPreview(content: string): string
  {
    if |content| > PreviewLength then content[..PreviewLength] + "..." else content
  }

  /** A preview is never longer than 203 characters and always starts with
      the content's first (up to) 200 characters; it only differs from the
      content when the content is longer than 200. */
  lemma PreviewShape(content: string)
    ensures |ContentPreview(content)| <= PreviewLength + 3
    ensures var n := if |content| <= PreviewLength then |content| else PreviewLength;
      ContentPreview(content)[..n] == content[..n]
    ensures ContentPreview(content) != content ==> |content| > PreviewLength
    ensures |content| > PreviewLength ==> ContentPreview(content)[PreviewLength..] == "..."
  {
  }

  /** One record of the saved article list. */
  datatype ArticleSummary = ArticleSummary(
    title: string,
    url: string,
    marketAreas: seq<string>,
    locations: seq<string>,
    sentimentScore: real,
    contentPreview: string)

  function Summarize(a: NewsArticle): ArticleSummary
  {
    ArticleSummary(a.title, a.url, a.marketAreas, a.locations, a.sentimentScore, ContentPreview(a.content))
  }

  /** The saved article list: one summary per article, in article order. */
  function SummarizeAll(articles: seq<NewsArticle>): (r: seq<ArticleSummary>)
    ensures |r| == |articles|
  {
    seq(|articles|, i requires 0 <= i < |articles| => Summarize(articles[i]))
  }

  /** Summaries copy every field but the content unchanged, and the preview
      is the only place the content goes. */
  lemma SummariesCopyFields(articles: seq<NewsArticle>)
    ensures forall i :: 0 <= i < |articles| ==>
      var s, a := SummarizeAll(articles)[i], articles[i];
      && s.title == a.title && s.url == a.url
      && s.marketAreas == a.marketAreas && s.locations == a.locations
      && s.sentimentScore == a.sentimentScore
      && s.contentPreview == ContentPreview(a.content)
  {
  }

  // ---------------------------------------------------------------------
  // Ranking

  /** A `(key, entry)` pair of the matrix, as iterated by `.items()`. */
  type Item = (string, Entry)

  /** The sort key: the stored (rounded) average. */
  function Avg(p: Item): real
  {
    p.1.averageSentiment
  }

  predicate SortedDesc(s: seq<Item>)
  {
    forall i, j :: 0 <= i < j < |s| ==> Avg(s[i]) >= Avg(s[j])
  }

  /** The items whose sort key is `v`, in their order in `s`. */
  function WithAvg(s: seq<Item>, v: real): seq<Item>
    decreases |s|
  {
    if s == [] then [] else (if Avg(s[0]) == v then [s[0]] else []) + WithAvg(s[1..], v)
  }

  /** Inserts `x` in front of the first item whose key is not larger, which
      keeps a descending sequence descending and puts `x` before its equals. */
  function Insert(x: Item, t: seq<Item>): (r: seq<Item>)
    ensures |r| == |t| + 1
    decreases |t|
  {
    if t == [] then [x]
    else if Avg(x) >= Avg(t[0]) then [x] + t
    else [t[0]] + Insert(x, t[1..])
  }

  /** `sorted(items, key=average, reverse=True)`: an insertion sort that
      processes the items back to front. */
  function SortDesc(s: seq<Item>): (r: seq<Item>)
    ensures |r| == |s|
    decreases |s|
  {
    if s == [] then [] else Insert(s[0], SortDesc(s[1..]))
  }

  /** Insertion adds exactly one copy of `x`. */
  lemma {:induction false} InsertPermutes(x: Item, t: seq<Item>)
    ensures multiset(Insert(x, t)) == multiset{x} + multiset(t)
    decreases |t|
  {
    if t != [] && Avg(x) < Avg(t[0]) {
      InsertPermutes(x, t[1..]);
      assert t == [t[0]] + t[1..];
    }
  }

  /** Insertion into a descending sequence keeps it descending. */
  lemma {:induction false} InsertSorted(x: Item, t: seq<Item>)
    requires SortedDesc(t)
    ensures SortedDesc(Insert(x, t))
    decreases |t|
  {
    if t != [] && Avg(x) < Avg(t[0]) {
      var rest := Insert(x, t[1..]);
      InsertSorted(x, t[1..]);
      InsertPermutes(x, t[1..]);
      forall i | 0 <= i < |rest|
        ensures Avg(t[0]) >= Avg(rest[i])
      {
        assert rest[i] in multiset(rest);
        if rest[i] != x {
          assert rest[i] in multiset(t[1..]);
          var j :| 0 <= j < |t[1..]| && t[1..][j] == rest[i];
          assert t[j + 1] == rest[i];
        }
      }
      var r := [t[0]] + rest;
      forall i, j | 0 <= i < j < |r|
        ensures Avg(r[i]) >= Avg(r[j])
      {
        if i > 0 {
          assert r[i] == rest[i - 1] && r[j] == rest[j - 1];
        } else {
          assert r[j] == rest[j - 1];
        }
      }
    }
  }

  /** Insertion leaves the other items of `x`'s key where they were and
      puts `x` first among them; other keys are untouched. */
  lemma {:induction false} InsertStable(x: Item, t: seq<Item>, v: real)
    ensures WithAvg(Insert(x, t), v) == if Avg(x) == v then [x] + WithAvg(t, v) else WithAvg(t, v)
    decreases |t|
  {
    if t == [] {
      assert WithAvg([x], v) == (if Avg(x) == v then [x] else []) + WithAvg([], v);
    } else if Avg(x) >= Avg(t[0]) {
      var r := [x] + t;
      assert r[1..] == t;
    } else {
      var rest := Insert(x, t[1..]);
      var r := [t[0]] + rest;
      assert r[1..] == rest;
      InsertStable(x, t[1..], v);
    }
  }

  /** The sort's output is descending. */
  lemma {:induction false} SortDescSorted(s: seq<Item>)
    ensures SortedDesc(SortDesc(s))
    decreases |s|
  {
    if s != [] {
      SortDescSorted(s[1..]);
      InsertSorted(s[0], SortDesc(s[1..]));
    }
  }

  /** The sort's output is a permutation of its input. */
  lemma {:induction false} SortDescPermutes(s: seq<Item>)
    ensures multiset(SortDesc(s)) == multiset(s)
    decreases |s|
  {
    if s != [] {
      SortDescPermutes(s[1..]);
      InsertPermutes(s[0], SortDesc(s[1..]));
      assert s == [s[0]] + s[1..];
    }
  }

  /** The sort is stable: the items of each key keep their input order. */
  lemma {:induction false} SortDescStable(s: seq<Item>, v: real)
    ensures WithAvg(SortDesc(s), v) == WithAvg(s, v)
    decreases |s|
  {
    if s != [] {
      SortDescStable(s[1..], v);
      InsertStable(s[0], SortDesc(s[1..]), v);
    }
  }

  /** `sorted_matrix[:5]`. */
  function TopCorrelations(matrix: Dict<Entry>): seq<Item>
  {
    Take(SortDesc(matrix), TopCount)
  }

  predicate IsPrefix(a: seq<Item>, b: seq<Item>)
  {
    |a| <= |b| && a == b[..|a|]
  }

  /** Filtering distributes over concatenation. */
  lemma {:induction false} WithAvgAppend(s: seq<Item>, t: seq<Item>, v: real)
    ensures WithAvg(s + t, v) == WithAvg(s, v) + WithAvg(t, v)
    decreases |s|
  {
    if s == [] {
      assert s + t == t;
    } else {
      var h := if Avg(s[0]) == v then [s[0]] else [];
      assert (s + t)[0] == s[0];
      assert (s + t)[1..] == s[1..] + t;
      assert WithAvg(s + t, v) == h + WithAvg(s[1..] + t, v);
      assert WithAvg(s, v) == h + WithAvg(s[1..], v);
      WithAvgAppend(s[1..], t, v);
      assert h + (WithAvg(s[1..], v) + WithAvg(t, v)) == (h + WithAvg(s[1..], v)) + WithAvg(t, v);
    }
  }

  /** The items of a prefix with a given key are a prefix of that key's items. */
  lemma WithAvgOfPrefix(s: seq<Item>, n: nat, v: real)
    requires n <= |s|
    ensures IsPrefix(WithAvg(s[..n], v), WithAvg(s, v))
  {
    assert s == s[..n] + s[n..];
    WithAvgAppend(s[..n], s[n..], v);
  }

  /** The ranking has at most five entries, all taken from the matrix, and a
      matrix of at most five entries is listed whole. */
  lemma TopCorrelationsSize(matrix: Dict<Entry>)
    ensures var top := TopCorrelations(matrix);
      && |top| == (if |matrix| <= TopCount then |matrix| else TopCount)
      && (forall p :: p in top ==> p in matrix)
      && (|matrix| <= TopCount ==> multiset(top) == multiset(matrix))
  {
    var sorted := SortDesc(matrix);
    var top := TopCorrelations(matrix);
    SortDescPermutes(matrix);
    forall p | p in top
      ensures p in matrix
    {
      var i :| 0 <= i < |top| && top[i] == p;
      assert sorted[i] == p;
      assert p in multiset(sorted);
    }
  }

  /** The listed entries are in non-increasing order of average, and no entry
      left out has a larger average than a listed one. */
  lemma TopCorrelationsRanked(matrix: Dict<Entry>)
    ensures var top := TopCorrelations(matrix);
      && SortedDesc(top)
      && (forall p, q :: p in matrix && p !in top && q in top ==> Avg(p) <= Avg(q))
  {
    var sorted := SortDesc(matrix);
    var top := TopCorrelations(matrix);
    SortDescSorted(matrix);
    SortDescPermutes(matrix);
    assert forall i :: 0 <= i < |top| ==> top[i] == sorted[i];
    forall p, q | p in matrix && p !in top && q in top
      ensures Avg(p) <= Avg(q)
    {
      assert p in multiset(sorted);
      var j :| 0 <= j < |sorted| && sorted[j] == p;
      var i :| 0 <= i < |top| && top[i] == q;
      assert j >= |top|;
    }
  }

  /** Entries with equal averages are listed in their matrix order. */
  lemma TopCorrelationsStable(matrix: Dict<Entry>, v: real)
    ensures IsPrefix(WithAvg(TopCorrelations(matrix), v), WithAvg(matrix, v))
  {
    var sorted := SortDesc(matrix);
    var top := TopCorrelations(matrix);
    assert top == sorted[..|top|];
    WithAvgOfPrefix(sorted, |top|, v);
    SortDescStable(matrix, v);
  }

  /** With distinct, underscore-free market ids and distinct location ids,
      ties in the ranking follow market-major, location-minor order. */
  lemma TopCorrelationsTieOrder(articles: seq<NewsArticle>, cr: Tagger.Crawler, v: real)
    requires NoDup(cr.marketAreas) && NoDup(cr.locations) && NoUnderscore(cr.marketAreas)
    ensures IsPrefix(WithAvg(TopCorrelations(GenerateReport(articles, cr).matrix), v),
                     WithAvg(Listing(articles, Cells(cr.marketAreas, cr.locations)), v))
  {
    ReportMatrixOrder(articles, cr);
    TopCorrelationsStable(GenerateReport(articles, cr).matrix, v);
  }

  // ---------------------------------------------------------------------
  // Trend arrows

  /** The arrow printed for a stored trend label; any other label gets the
      flat arrow. */
  function TrendEmoji(trendLabel: string): string
  {
    if trendLabel == "positive" then "\U{1F4C8}"
    else if trendLabel == "negative" then "\U{1F4C9}"
    else "\U{27A1}\U{FE0F}"
  }

  /** Each trend gets its own arrow: rising for positive, falling for
      negative, flat for neutral. */
  lemma TrendEmojiOfTrend(t: Trend)
    ensures TrendEmoji(t.Label()) == match t
      case Positive => "\U{1F4C8}"
      case Negative => "\U{1F4C9}"
      case Neutral => "\U{27A1}\U{FE0F}"
    ensures forall t': Trend :: TrendEmoji(t.Label()) == TrendEmoji(t'.Label()) ==> t == t'
  {
    LabelInjective(t, Positive);
    LabelInjective(t, Negative);
    assert "\U{1F4C8}" != "\U{1F4C9}";
    assert "\U{1F4C8}"[0] != "\U{27A1}\U{FE0F}"[0] && "\U{1F4C9}"[0] != "\U{27A1}\U{FE0F}"[0];
  }
}
