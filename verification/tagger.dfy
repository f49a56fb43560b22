/** The keyword tagger (`find_market_areas` / `find_locations`): a category
    is reported when the crawler tracks it and one of its keywords is a plain
    substring of the lower-cased text. */
module Tagger {
  import opened Seqs
  import opened Text
  import opened Keywords

  /** The tracked vocabularies of one crawler; ids are stored lower-cased. */
  datatype Crawler = Crawler(marketAreas: seq<string>, locations: seq<string>)

  /** The crawler constructor: it lower-cases every tracked id, so the stored
      ids are in the same normal form as the keyword maps' ids. */
  function NewCrawler(marketAreas: seq<string>, locations: seq<string>): (cr: Crawler)
    ensures forall i :: 0 <= i < |cr.marketAreas| ==> Lower(cr.marketAreas[i]) == cr.marketAreas[i]
    ensures forall i :: 0 <= i < |cr.locations| ==> Lower(cr.locations[i]) == cr.locations[i]
  {
    Crawler(seq(|marketAreas|, i requires 0 <= i < |marketAreas| => Lower(marketAreas[i])),
            seq(|locations|, i requires 0 <= i < |locations| => Lower(locations[i])))
  }

  /** Ids are tracked whatever their case: an id is tracked iff it is the
      lower-case form of one of the configured ids. */
  lemma NewCrawlerTracks(marketAreas: seq<string>, locations: seq<string>, c: string)
    ensures c in NewCrawler(marketAreas, locations).marketAreas <==>
      exists i :: 0 <= i < |marketAreas| && Lower(marketAreas[i]) == c
    ensures c in NewCrawler(marketAreas, locations).locations <==>
      exists i :: 0 <= i < |locations| && Lower(locations[i]) == c
  {
    var cr := NewCrawler(marketAreas, locations);
    if exists i :: 0 <= i < |marketAreas| && Lower(marketAreas[i]) == c {
      var i :| 0 <= i < |marketAreas| && Lower(marketAreas[i]) == c;
      assert cr.marketAreas[i] == c;
    }
    if exists i :: 0 <= i < |locations| && Lower(locations[i]) == c {
      var i :| 0 <= i < |locations| && Lower(locations[i]) == c;
      assert cr.locations[i] == c;
    }
  }

  /** Configured ids that agree up to case give crawlers that tag every text
      alike. */
  lemma TrackingIgnoresCase(ms: seq<string>, ls: seq<string>, ms': seq<string>, ls': seq<string>, text: string)
    requires |ms| == |ms'| && forall i :: 0 <= i < |ms| ==> Lower(ms[i]) == Lower(ms'[i])
    requires |ls| == |ls'| && forall i :: 0 <= i < |ls| ==> Lower(ls[i]) == Lower(ls'[i])
    ensures FindMarketAreas(NewCrawler(ms, ls), text) == FindMarketAreas(NewCrawler(ms', ls'), text)
    ensures FindLocations(NewCrawler(ms, ls), text) == FindLocations(NewCrawler(ms', ls'), text)
  {
    assert NewCrawler(ms, ls).marketAreas == NewCrawler(ms', ls').marketAreas;
    assert NewCrawler(ms, ls).locations == NewCrawler(ms', ls').locations;
  }

  /** Some keyword of `c` occurs in the (already lower-cased) text. */
  predicate Mentions(c: Category, lowered: string)
  {
    exists j :: 0 <= j < |c.keywords| && Contains(lowered, c.keywords[j])
  }

  /** The condition under which the tagger emits `c.id`. */
  predicate Selected(c: Category, tracked: seq<string>, lowered: string)
  {
    c.id in tracked && Mentions(c, lowered)
  }

  /** Reference definition of the tagger over an already lower-cased text:
      the ids of the selected categories, in keyword-map order. */
  function FindIn(kmap: KeywordMap, tracked: seq<string>, lowered: string): seq<string>
    decreases |kmap|
  {
    if kmap == [] then []
    else
      var c := kmap[|kmap| - 1];
      FindIn(kmap[..|kmap| - 1], tracked, lowered) + (if Selected(c, tracked, lowered) then [c.id] else [])
  }

  /** The tagger on raw text. */
  function FindCategories(kmap: KeywordMap, tracked: seq<string>, text: string): seq<string>
  {
    FindIn(kmap, tracked, Lower(text))
  }

  function FindMarketAreas(cr: Crawler, text: string): seq<string>
  {
    FindCategories(MarketKeywords, cr.marketAreas, text)
  }

  function FindLocations(cr: Crawler, text: string): seq<string>
  {
    FindCategories(LocationKeywords, cr.locations, text)
  }

  /** The tagger's loops as written: walk the keyword map, skip untracked
      categories, and stop scanning a category's keywords at the first hit. */
  method FindCategoriesLoop(kmap: KeywordMap, tracked: seq<string>, text: string) returns (found: seq<string>)
    ensures found == FindCategories(kmap, tracked, text)
    ensures forall c :: c in found <==>
      c in tracked && exists i :: 0 <= i < |kmap| && kmap[i].id == c && Mentions(kmap[i], Lower(text))
    ensures IsSubsequence(found, Ids(kmap))
    ensures NoDup(Ids(kmap)) ==> NoDup(found)
  {
    var lowered := Lower(text);
    found := [];
    var i := 0;
    while i < |kmap|
      invariant 0 <= i <= |kmap|
      invariant found == FindIn(kmap[..i], tracked, lowered)
    {
      var c := kmap[i];
      var hit := false;
      if c.id in tracked {
        var j := 0;
        while j < |c.keywords| && !hit
          invariant 0 <= j <= |c.keywords|
          invariant !hit ==> forall j' :: 0 <= j' < j ==> !Contains(lowered, c.keywords[j'])
          invariant hit ==> Mentions(c, lowered)
        {
          if Contains(lowered, c.keywords[j]) {
            hit := true;
          }
          j := j + 1;
        }
      }
      assert hit <==> Selected(c, tracked, lowered);
      if hit {
        found := found + [c.id];
      }
      assert kmap[..i + 1][..i] == kmap[..i];
      i := i + 1;
    }
    assert kmap[..|kmap|] == kmap;
    FindMembership(kmap, tracked, lowered);
    FindInKeyOrder(kmap, tracked, lowered);
    if NoDup(Ids(kmap)) {
      FindNoDuplicates(kmap, tracked, lowered);
    }
  }

  /** A category id is reported iff it is tracked and one of the keyword-map
      entries carrying that id has a keyword occurring in the text. */
  lemma {:induction false} FindMembership(kmap: KeywordMap, tracked: seq<string>, lowered: string)
    ensures forall c :: c in FindIn(kmap, tracked, lowered) <==>
      c in tracked && exists i :: 0 <= i < |kmap| && kmap[i].id == c && Mentions(kmap[i], lowered)
    decreases |kmap|
  {
    if kmap != [] {
      var n := |kmap| - 1;
      var pre := kmap[..n];
      FindMembership(pre, tracked, lowered);
      forall c
        ensures c in FindIn(kmap, tracked, lowered) <==>
          c in tracked && exists i :: 0 <= i < |kmap| && kmap[i].id == c && Mentions(kmap[i], lowered)
      {
        if c in tracked && exists i :: 0 <= i < |kmap| && kmap[i].id == c && Mentions(kmap[i], lowered) {
          var i :| 0 <= i < |kmap| && kmap[i].id == c && Mentions(kmap[i], lowered);
          if i < n {
            assert pre[i] == kmap[i];
          }
        }
        if c in FindIn(pre, tracked, lowered) {
          var i :| 0 <= i < |pre| && pre[i].id == c && Mentions(pre[i], lowered);
          assert kmap[i] == pre[i];
        }
      }
    }
  }

  /** The reported ids appear in keyword-map order. */
  lemma {:induction false} FindInKeyOrder(kmap: KeywordMap, tracked: seq<string>, lowered: string)
    ensures IsSubsequence(FindIn(kmap, tracked, lowered), Ids(kmap))
    decreases |kmap|
  {
    if kmap != [] {
      var n := |kmap| - 1;
      var pre := kmap[..n];
      var rest := FindIn(pre, tracked, lowered);
      FindInKeyOrder(pre, tracked, lowered);
      assert Ids(kmap)[..n] == Ids(pre);
      if Selected(kmap[n], tracked, lowered) {
        assert (rest + [kmap[n].id])[..|rest|] == rest;
      } else {
        assert FindIn(kmap, tracked, lowered) == rest;
        assert IsSubsequence(rest, Ids(kmap)[..n]);
      }
    }
  }

  /** With unique dict keys, no category is reported twice. */
  lemma {:induction false} FindNoDuplicates(kmap: KeywordMap, tracked: seq<string>, lowered: string)
    requires NoDup(Ids(kmap))
    ensures NoDup(FindIn(kmap, tracked, lowered))
    decreases |kmap|
  {
    if kmap != [] {
      var n := |kmap| - 1;
      var pre := kmap[..n];
      assert Ids(pre) == Ids(kmap)[..n];
      FindNoDuplicates(pre, tracked, lowered);
      if Selected(kmap[n], tracked, lowered) {
        FindMembership(pre, tracked, lowered);
        var rest := FindIn(pre, tracked, lowered);
        forall i | 0 <= i < |pre|
          ensures pre[i].id != kmap[n].id
        {
          assert pre[i].id == Ids(kmap)[i] && kmap[n].id == Ids(kmap)[n];
        }
        assert kmap[n].id !in rest;
      }
    }
  }

  /** Tagging is monotone in the text: every category found in `t` is found
      in any text `u` that contains `t`. */
  lemma FindMonotone(kmap: KeywordMap, tracked: seq<string>, t: string, u: string)
    requires Contains(u, t)
    ensures forall c :: c in FindCategories(kmap, tracked, t) ==> c in FindCategories(kmap, tracked, u)
  {
    FindMembership(kmap, tracked, Lower(t));
    FindMembership(kmap, tracked, Lower(u));
    ContainsLower(u, t);
    forall i | 0 <= i < |kmap| && Mentions(kmap[i], Lower(t))
      ensures Mentions(kmap[i], Lower(u))
    {
      var j :| 0 <= j < |kmap[i].keywords| && Contains(Lower(t), kmap[i].keywords[j]);
      ContainsTransitive(Lower(u), Lower(t), kmap[i].keywords[j]);
    }
  }

  /** In particular, appending text never removes a category. */
  lemma FindAppendMonotone(kmap: KeywordMap, tracked: seq<string>, t: string, s: string)
    ensures forall c :: c in FindCategories(kmap, tracked, t) ==> c in FindCategories(kmap, tracked, t + s)
  {
    ContainsInExtension(t, s);
    FindMonotone(kmap, tracked, t, t + s);
  }

  /** Since every keyword is non-empty, the empty text is tagged with nothing. */
  lemma {:induction false} FindEmptyText(kmap: KeywordMap, tracked: seq<string>)
    requires forall i :: 0 <= i < |kmap| ==> KeywordsOk(kmap[i])
    ensures FindCategories(kmap, tracked, "") == []
    decreases |kmap|
  {
    assert Lower("") == "";
    if kmap != [] {
      var n := |kmap| - 1;
      FindEmptyText(kmap[..n], tracked);
      forall j | 0 <= j < |kmap[n].keywords|
        ensures !Contains("", kmap[n].keywords[j])
      {
        ContainsInEmpty(kmap[n].keywords[j]);
      }
      assert !Selected(kmap[n], tracked, "");
    }
  }

  /** Matching ignores ASCII case: a tracked category is found when the text
      contains any spelling `v` whose lower-case form is one of its keywords. */
  lemma FindIgnoresCase(kmap: KeywordMap, tracked: seq<string>, text: string, i: int, j: int, v: string)
    requires 0 <= i < |kmap| && 0 <= j < |kmap[i].keywords|
    requires kmap[i].id in tracked
    requires Lower(v) == kmap[i].keywords[j]
    requires Contains(text, v)
    ensures kmap[i].id in FindCategories(kmap, tracked, text)
  {
    ContainsLower(text, v);
    FindMembership(kmap, tracked, Lower(text));
  }

  /** Ids that are tracked but have no keyword-map entry are never reported. */
  lemma FindOnlyKnownIds(kmap: KeywordMap, tracked: seq<string>, text: string, c: string)
    requires c !in Ids(kmap)
    ensures c !in FindCategories(kmap, tracked, text)
  {
    FindMembership(kmap, tracked, Lower(text));
    assert forall i :: 0 <= i < |kmap| ==> kmap[i].id == Ids(kmap)[i];
  }
}
