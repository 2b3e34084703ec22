// The search use case (src/application/use_cases/search.rs): page, block
// and URL hits of a lowercased query over every stored page or over the
// pages a filter names, gated by the requested result type and sorted by
// score. Scores are tenths (see SearchDto).
module Search {
  import opened Base
  import opened Strings
  import opened ValueObjects
  import opened Entities
  import opened BlockTree
  import opened Aggregates
  import opened PageQueries
  import opened PageRepository
  import opened SearchDto
  import opened UrlQueries
  import opened LinkQueries
  import opened ScoreSort

  // ----- scores --------------------------------------------------------------------

  /** A string starts with itself, and whatever starts with a pattern
      contains it. */
  lemma PrefixContains(s: string, pat: string)
    ensures StartsWith(s, s)
    ensures StartsWith(s, pat) ==> Contains(s, pat)
  {
    assert s[..|s|] == s;
  }

  /** The score of a lowercased title or block content against the
      lowercased query: 10 for equality, 9 for a prefix, 7 for any other
      occurrence, none when the query does not occur. */
  function MatchScore(text: string, query: string): (r: Option<nat>)
    ensures r.Some? <==> Contains(text, query)
    ensures r == Some(10) <==> text == query
    ensures r == Some(9) <==> text != query && StartsWith(text, query)
    ensures r.Some? ==> r.value == 10 || r.value == 9 || r.value == 7
  {
    PrefixContains(text, query);
    if Contains(text, query) then
      Some(if text == query then 10 else if StartsWith(text, query) then 9 else 7)
    else
      None
  }

  /** The score of a lowercased URL: 10 for equality, 8 for any other
      occurrence of the query. */
  function UrlMatchScore(url: string, query: string): (r: Option<nat>)
    ensures r.Some? <==> Contains(url, query)
    ensures r == Some(10) <==> url == query
    ensures r.Some? ==> r.value == 10 || r.value == 8
  {
    PrefixContains(url, query);
    if Contains(url, query) then Some(if url == query then 10 else 8) else None
  }

  /** The hit, if any, as a list of zero or one results. */
  function AsSeq(h: Option<SearchResult>): (r: seq<SearchResult>)
    ensures |r| <= 1 && (h.Some? ==> r == [h.value]) && (h.None? ==> r == [])
  {
    if h.Some? then [h.value] else []
  }

  // ----- search_page ---------------------------------------------------------------

  /** `search_page`: a hit when the lowercased title contains the query,
      carrying the page's id, title, block count, URLs and references. */
  function PageHit(p: PageData, order: seq<BlockId>, query: string): (r: Option<SearchResult>)
    requires forall i :: 0 <= i < |order| ==> order[i] in p.blocks
    ensures r.Some? <==> Contains(ToLower(p.title), query)
    ensures r.Some? ==> r.value.item.PageItem? && r.value.score == MatchScore(ToLower(p.title), query).value
  {
    match MatchScore(ToLower(p.title), query)
    case None => None
    case Some(score) =>
      Some(SearchResult(PageItem(PageResult(p.id, p.title, |p.blocks|, AllUrls(p, order), AllPageReferences(p, order))), score))
  }

  /** A page hit lists the page's blocks' URLs and references: as many as
      the blocks hold, and exactly those. */
  lemma PageHitSpec(p: PageData, order: seq<BlockId>, query: string)
    requires Enumerates(order, p.blocks)
    requires PageHit(p, order, query).Some?
    ensures
      var r := PageHit(p, order, query).value.item.page;
      && r.pageId == p.id && r.title == p.title && r.blockCount == |p.blocks|
      && |r.urls| == UrlCount(p.blocks, order) && |r.pageReferences| == RefCount(p.blocks, order)
      && (forall u :: u in r.urls <==> exists k :: k in p.blocks && u in p.blocks[k].urls)
      && (forall x :: x in r.pageReferences <==> exists k :: k in p.blocks && x in p.blocks[k].pageReferences)
  {
    AllUrlsCount(p, order);
    AllPageReferencesCount(p, order);
  }

  // ----- search_blocks -------------------------------------------------------------

  /** The hit for block `k`: its content matched against the query, with
      the contents along its hierarchy path and the references and URLs of
      its ancestors and then of its descendants. */
  ghost function BlockHit(p: PageData, k: BlockId, query: string): Option<SearchResult>
    requires Acyclic(p.blocks) && k in p.blocks
  {
    var m := p.blocks;
    var b := m[k];
    match MatchScore(ToLower(b.content.text), query)
    case None => None
    case Some(score) =>
      var around := AncestorIds(m, b.id);
      var below := Descendants(m, b.id);
      Some(SearchResult(BlockItem(BlockResult(b.id, b.content.text, p.id, p.title,
        Contents(BlocksOf(m, PathIds(m, b.id))),
        RefsOf(m, around) + RefsOf(m, below),
        UrlsOf(m, around) + UrlsOf(m, below))), score))
  }

  /** The block hits of a page, in map order. */
  ghost function BlockHits(p: PageData, order: seq<BlockId>, query: string): (r: seq<SearchResult>)
    requires Acyclic(p.blocks)
    requires forall i :: 0 <= i < |order| ==> order[i] in p.blocks
    ensures forall i :: 0 <= i < |r| ==> r[i].item.BlockItem?
  {
    if order == [] then []
    else
      var n := |order| - 1;
      BlockHits(p, order[..n], query) +
        AsSeq(BlockHit(p, order[n], query))
  }

  lemma BlockHitsStep(p: PageData, order: seq<BlockId>, query: string, i: nat)
    requires Acyclic(p.blocks)
    requires forall j :: 0 <= j < |order| ==> order[j] in p.blocks
    requires i < |order|
    ensures BlockHits(p, order[..i + 1], query) ==
      BlockHits(p, order[..i], query) +
        AsSeq(BlockHit(p, order[i], query))
  {
    assert order[..i + 1][..i] == order[..i];
  }

  /** Every block hit of a listed block is among the block hits. */
  lemma {:induction false} BlockHitListed(p: PageData, order: seq<BlockId>, query: string, i: nat)
    requires Acyclic(p.blocks)
    requires forall j :: 0 <= j < |order| ==> order[j] in p.blocks
    requires i < |order| && BlockHit(p, order[i], query).Some?
    ensures BlockHit(p, order[i], query).value in BlockHits(p, order, query)
  {
    var n := |order| - 1;
    var init := BlockHits(p, order[..n], query);
    var last := AsSeq(BlockHit(p, order[n], query));
    assert BlockHits(p, order, query) == init + last;
    if i < n {
      assert order[..n][i] == order[i];
      BlockHitListed(p, order[..n], query, i);
    } else {
      assert last == [BlockHit(p, order[i], query).value];
    }
  }

  /** Every block hit is the hit of a listed block. */
  lemma {:induction false} BlockHitOrigin(p: PageData, order: seq<BlockId>, query: string, j: nat) returns (i: nat)
    requires Acyclic(p.blocks)
    requires forall k :: 0 <= k < |order| ==> order[k] in p.blocks
    requires j < |BlockHits(p, order, query)|
    ensures i < |order| && BlockHit(p, order[i], query) == Some(BlockHits(p, order, query)[j])
  {
    var n := |order| - 1;
    if j < |BlockHits(p, order[..n], query)| {
      i := BlockHitOrigin(p, order[..n], query, j);
    } else {
      i := n;
    }
  }

  /** A block is a hit iff its lowercased content contains the query; its
      hit names the block and its page, and its hierarchy path runs from a
      root to the block's own content. */
  lemma BlockHitSpec(p: PageData, k: BlockId, query: string)
    requires WellFormed(p) && k in p.blocks
    ensures BlockHit(p, k, query).Some? <==> Contains(ToLower(p.blocks[k].content.text), query)
    ensures BlockHit(p, k, query).Some? ==>
      var m := p.blocks;
      var h := BlockHit(p, k, query).value;
      && h.score == MatchScore(ToLower(m[k].content.text), query).value
      && h.item.BlockItem?
      && var r := h.item.block;
      && r.blockId == k && r.content == m[k].content.text && r.pageId == p.id && r.pageTitle == p.title
      && |r.hierarchyPath| == |AncestorIds(m, k)| + 1
      && r.hierarchyPath[|r.hierarchyPath| - 1] == r.content
      && r.hierarchyPath[0] == m[PathIds(m, k)[0]].content.text && m[PathIds(m, k)[0]].IsRoot()
  {
    assert p.blocks[k].id == k;
    HierarchyPathShape(p, k);
  }

  /** The related references and URLs of a block hit are exactly those held
      by the block's ancestors or descendants. */
  lemma BlockHitRelated(p: PageData, k: BlockId, query: string)
    requires WellFormed(p) && k in p.blocks
    requires BlockHit(p, k, query).Some?
    ensures
      var m := p.blocks;
      var r := BlockHit(p, k, query).value.item.block;
      && (forall x :: x in r.relatedPages <==>
            (exists a :: a in AncestorIds(m, k) && x in m[a].pageReferences) ||
            (exists a :: a in Descendants(m, k) && x in m[a].pageReferences))
      && (forall u :: u in r.relatedUrls <==>
            (exists a :: a in AncestorIds(m, k) && u in m[a].urls) ||
            (exists a :: a in Descendants(m, k) && u in m[a].urls))
  {
    var m := p.blocks;
    assert m[k].id == k;
    var above, below := AncestorIds(m, k), Descendants(m, k);
    var r := BlockHit(p, k, query).value.item.block;
    assert r.relatedPages == RefsOf(m, above) + RefsOf(m, below);
    assert r.relatedUrls == UrlsOf(m, above) + UrlsOf(m, below);
    forall x
      ensures x in RefsOf(m, above) <==> exists a :: a in above && x in m[a].pageReferences
      ensures x in RefsOf(m, below) <==> exists a :: a in below && x in m[a].pageReferences
    {
      RefsOfMembers(m, above, x);
      RefsOfMembers(m, below, x);
    }
    forall u
      ensures u in UrlsOf(m, above) <==> exists a :: a in above && u in m[a].urls
      ensures u in UrlsOf(m, below) <==> exists a :: a in below && u in m[a].urls
    {
      UrlsOfMembers(m, above, u);
      UrlsOfMembers(m, below, u);
    }
  }

  /** The references and URLs of a list of blocks, gathered in one pass. */
  method CollectRelated(bs: seq<Block>) returns (refs: seq<PageReference>, urls: seq<Url>)
    ensures refs == RefsOfBlocks(bs) && urls == UrlsOfBlocks(bs)
  {
    refs, urls := [], [];
    var i := |bs|;
    while i > 0
      invariant 0 <= i <= |bs|
      invariant refs == RefsOfBlocks(bs[i..]) && urls == UrlsOfBlocks(bs[i..])
    {
      i := i - 1;
      assert bs[i..][1..] == bs[i + 1..];
      refs := bs[i].pageReferences + refs;
      urls := bs[i].urls + urls;
    }
  }

  /** The hit of one block, computed as `search_blocks` does. */
  method SearchBlock(p: PageData, k: BlockId, query: string) returns (r: Option<SearchResult>)
    requires Acyclic(p.blocks) && k in p.blocks
    ensures r == BlockHit(p, k, query)
  {
    var m := p.blocks;
    var b := m[k];
    var score := MatchScore(ToLower(b.content.text), query);
    if score.None? {
      return None;
    }
    var path := GetHierarchyPath(p, b.id);
    var ancestors := GetAncestors(p, b.id);
    var descendants := GetDescendants(p, b.id);
    var refsAbove, urlsAbove := CollectRelated(ancestors);
    var refsBelow, urlsBelow := CollectRelated(descendants);
    RefsOfBlocksOf(m, AncestorIds(m, b.id));
    RefsOfBlocksOf(m, Descendants(m, b.id));
    UrlsOfBlocksOf(m, AncestorIds(m, b.id));
    UrlsOfBlocksOf(m, Descendants(m, b.id));
    r := Some(SearchResult(BlockItem(BlockResult(b.id, b.content.text, p.id, p.title, Contents(path),
      refsAbove + refsBelow, urlsAbove + urlsBelow)), score.value));
  }

  /** `search_blocks`: the block hits of a page in map order. */
  method SearchBlocks(p: PageData, order: seq<BlockId>, query: string) returns (r: seq<SearchResult>)
    requires Acyclic(p.blocks)
    requires forall i :: 0 <= i < |order| ==> order[i] in p.blocks
    ensures r == BlockHits(p, order, query)
  {
    r := [];
    for i := 0 to |order|
      invariant r == BlockHits(p, order[..i], query)
    {
      BlockHitsStep(p, order, query, i);
      var hit := SearchBlock(p, order[i], query);
      if hit.Some? {
        r := r + [hit.value];
      }
    }
    assert order[..|order|] == order;
  }

  // ----- search_urls ---------------------------------------------------------------

  /** The hit for one `(url, ancestor refs, descendant refs)` triple: the
      lowercased URL matched against the query, with the first block in
      map order holding an equal URL. */
  function UrlHit(p: PageData, order: seq<BlockId>, t: (Url, seq<PageReference>, seq<PageReference>), query: string)
    : (r: Option<SearchResult>)
    requires forall i :: 0 <= i < |order| ==> order[i] in p.blocks
    ensures r.Some? ==> r.value.item.UrlItem?
  {
    match UrlMatchScore(ToLower(t.0.value), query)
    case None => None
    case Some(score) =>
      match FirstHolder(p.blocks, order, t.0, 0)
      case None => None
      case Some(j) =>
        var b := p.blocks[order[j]];
        Some(SearchResult(UrlItem(UrlResult(t.0, b.id, b.content.text, p.id, p.title, t.1, t.2)), score))
  }

  /** The URL hits of a list of triples, in order. */
  function UrlHits(p: PageData, order: seq<BlockId>, ts: seq<(Url, seq<PageReference>, seq<PageReference>)>, query: string)
    : (r: seq<SearchResult>)
    requires forall i :: 0 <= i < |order| ==> order[i] in p.blocks
    ensures forall i :: 0 <= i < |r| ==> r[i].item.UrlItem?
  {
    if ts == [] then []
    else
      var n := |ts| - 1;
      UrlHits(p, order, ts[..n], query) +
        AsSeq(UrlHit(p, order, ts[n], query))
  }

  lemma UrlHitsStep(p: PageData, order: seq<BlockId>, ts: seq<(Url, seq<PageReference>, seq<PageReference>)>, query: string, i: nat)
    requires forall j :: 0 <= j < |order| ==> order[j] in p.blocks
    requires i < |ts|
    ensures UrlHits(p, order, ts[..i + 1], query) ==
      UrlHits(p, order, ts[..i], query) +
        AsSeq(UrlHit(p, order, ts[i], query))
  {
    assert ts[..i + 1][..i] == ts[..i];
  }

  /** Every URL hit of a listed triple is among the URL hits. */
  lemma {:induction false} UrlHitListed(p: PageData, order: seq<BlockId>,
    ts: seq<(Url, seq<PageReference>, seq<PageReference>)>, query: string, i: nat)
    requires forall j :: 0 <= j < |order| ==> order[j] in p.blocks
    requires i < |ts| && UrlHit(p, order, ts[i], query).Some?
    ensures UrlHit(p, order, ts[i], query).value in UrlHits(p, order, ts, query)
  {
    var n := |ts| - 1;
    if i < n {
      UrlHitListed(p, order, ts[..n], query, i);
    }
  }

  /** Every URL hit is the hit of a listed triple. */
  lemma {:induction false} UrlHitOrigin(p: PageData, order: seq<BlockId>,
    ts: seq<(Url, seq<PageReference>, seq<PageReference>)>, query: string, j: nat) returns (i: nat)
    requires forall k :: 0 <= k < |order| ==> order[k] in p.blocks
    requires j < |UrlHits(p, order, ts, query)|
    ensures i < |ts| && UrlHit(p, order, ts[i], query) == Some(UrlHits(p, order, ts, query)[j])
  {
    var n := |ts| - 1;
    if j < |UrlHits(p, order, ts[..n], query)| {
      i := UrlHitOrigin(p, order, ts[..n], query, j);
    } else {
      i := n;
    }
  }

  /** A triple whose URL some block holds is a hit iff its lowercased URL
      contains the query; the hit names a block holding the URL, the page,
      and the triple's references. */
  lemma UrlHitSpec(p: PageData, order: seq<BlockId>, t: (Url, seq<PageReference>, seq<PageReference>), query: string)
    requires WellFormed(p) && Enumerates(order, p.blocks)
    requires exists k :: k in p.blocks && t.0 in p.blocks[k].urls
    ensures UrlHit(p, order, t, query).Some? <==> Contains(ToLower(t.0.value), query)
    ensures UrlHit(p, order, t, query).Some? ==>
      var h := UrlHit(p, order, t, query).value;
      && h.score == UrlMatchScore(ToLower(t.0.value), query).value
      && var r := h.item.url;
      && r.url == t.0 && r.containingBlockId in p.blocks && t.0 in p.blocks[r.containingBlockId].urls
      && r.containingBlockContent == p.blocks[r.containingBlockId].content.text
      && r.pageId == p.id && r.pageTitle == p.title
      && r.ancestorPageRefs == t.1 && r.descendantPageRefs == t.2
  {
    var m := p.blocks;
    var k :| k in m && t.0 in m[k].urls;
    assert k in order;
    var j := FirstHolder(m, order, t.0, 0);
    assert j.Some?;
    assert m[order[j.value]].id == order[j.value];
  }

  /** `search_urls`: the URL hits of the page's `get_urls_with_context`
      triples, in order. */
  method SearchUrls(p: PageData, order: seq<BlockId>, query: string) returns (r: seq<SearchResult>)
    requires Acyclic(p.blocks)
    requires forall i :: 0 <= i < |order| ==> order[i] in p.blocks
    ensures r == UrlHits(p, order, UrlContexts(p.blocks, order), query)
  {
    var triples := GetUrlsWithContext(p, order);
    r := [];
    for i := 0 to |triples|
      invariant r == UrlHits(p, order, triples[..i], query)
    {
      UrlHitsStep(p, order, triples, query, i);
      var t := triples[i];
      var score := UrlMatchScore(ToLower(t.0.value), query);
      if score.Some? {
        var holder := FindHolder(p, order, t.0);
        if holder.Some? {
          var b := holder.value;
          r := r + [SearchResult(UrlItem(UrlResult(t.0, b.id, b.content.text, p.id, p.title, t.1, t.2)), score.value)];
        }
      }
    }
    assert triples[..|triples|] == triples;
  }

  // ----- traditional_search ----------------------------------------------------------

  /** The kinds of hit a result type asks for. */
  predicate Allowed(rt: ResultType, item: SearchItem) {
    match item
    case PageItem(_) => rt == PagesOnly || rt == All
    case BlockItem(_) => rt == BlocksOnly || rt == All
    case UrlItem(_) => rt == UrlsOnly || rt == All
  }

  /** The hits of one page: its page hit, its block hits, then its URL hits,
      each only when the result type asks for that kind. */
  ghost function PageResults(p: PageData, order: seq<BlockId>, query: string, rt: ResultType): seq<SearchResult>
    requires Acyclic(p.blocks)
    requires forall i :: 0 <= i < |order| ==> order[i] in p.blocks
  {
    (if rt == PagesOnly || rt == All then
       AsSeq(PageHit(p, order, query))
     else []) +
    (if rt == BlocksOnly || rt == All then BlockHits(p, order, query) else []) +
    (if rt == UrlsOnly || rt == All then UrlHits(p, order, UrlContexts(p.blocks, order), query) else [])
  }

  /** Every page's block arena is acyclic. */
  ghost predicate AllAcyclic(pages: seq<PageData>) {
    forall i :: 0 <= i < |pages| ==> Acyclic(pages[i].blocks)
  }

  /** The unsorted hits of the pages, page by page. */
  ghost function AllResults(pages: seq<PageData>, orders: seq<seq<BlockId>>, query: string, rt: ResultType): seq<SearchResult>
    requires OrdersFor(pages, orders) && AllAcyclic(pages)
  {
    if pages == [] then []
    else
      var n := |pages| - 1;
      AllResults(pages[..n], orders[..n], query, rt) + PageResults(pages[n], orders[n], query, rt)
  }

  lemma AllResultsStep(pages: seq<PageData>, orders: seq<seq<BlockId>>, order: seq<BlockId>,
    query: string, rt: ResultType, i: nat)
    requires i < |pages| && OrdersFor(pages[..i], orders) && AllAcyclic(pages)
    requires Enumerates(order, pages[i].blocks)
    ensures OrdersFor(pages[..i + 1], orders + [order]) && AllAcyclic(pages[..i + 1]) && AllAcyclic(pages[..i])
    ensures AllResults(pages[..i + 1], orders + [order], query, rt) ==
      AllResults(pages[..i], orders, query, rt) + PageResults(pages[i], order, query, rt)
  {
    assert pages[..i + 1][..i] == pages[..i];
    assert (orders + [order])[..i] == orders;
  }

  /** The hits of one page, computed as `traditional_search` does. */
  method SearchPage(p: PageData, query: string, rt: ResultType) returns (r: seq<SearchResult>, ghost order: seq<BlockId>)
    requires Acyclic(p.blocks)
    ensures Enumerates(order, p.blocks)
    ensures r == PageResults(p, order, query, rt)
  {
    var keys := KeysInSomeOrder(p.blocks);
    order := keys;
    var pageHits, blockHits, urlHits := [], [], [];
    if rt == PagesOnly || rt == All {
      var hit := PageHit(p, keys, query);
      if hit.Some? {
        pageHits := [hit.value];
      }
    }
    if rt == BlocksOnly || rt == All {
      blockHits := SearchBlocks(p, keys, query);
    }
    if rt == UrlsOnly || rt == All {
      urlHits := SearchUrls(p, keys, query);
    }
    r := pageHits + blockHits + urlHits;
  }

  /** `traditional_search`: the hits of every page in turn, sorted by score. */
  method TraditionalSearch(pages: seq<PageData>, req: SearchRequest) returns (r: seq<SearchResult>, ghost orders: seq<seq<BlockId>>)
    requires AllAcyclic(pages)
    ensures OrdersFor(pages, orders)
    ensures r == SortByScore(AllResults(pages, orders, ToLower(req.query), req.resultType))
  {
    var query := ToLower(req.query);
    var results := [];
    orders := [];
    for i := 0 to |pages|
      invariant OrdersFor(pages[..i], orders) && AllAcyclic(pages[..i])
      invariant results == AllResults(pages[..i], orders, query, req.resultType)
    {
      var hits, order := SearchPage(pages[i], query, req.resultType);
      AllResultsStep(pages, orders, order, query, req.resultType, i);
      results := results + hits;
      orders := orders + [order];
    }
    assert pages[..|pages|] == pages;
    r := SortResults(results);
  }

  /** Every hit is of a kind the result type asks for. */
  lemma PageResultsGated(p: PageData, order: seq<BlockId>, query: string, rt: ResultType)
    requires Acyclic(p.blocks)
    requires forall i :: 0 <= i < |order| ==> order[i] in p.blocks
    ensures forall x :: x in PageResults(p, order, query, rt) ==> Allowed(rt, x.item)
  {
    var a: seq<SearchResult> := if rt == PagesOnly || rt == All then
       AsSeq(PageHit(p, order, query))
     else [];
    var b := if rt == BlocksOnly || rt == All then BlockHits(p, order, query) else [];
    var c := if rt == UrlsOnly || rt == All then UrlHits(p, order, UrlContexts(p.blocks, order), query) else [];
    assert PageResults(p, order, query, rt) == a + b + c;
    forall x | x in a + b + c
      ensures Allowed(rt, x.item)
    {
      if x in a {
      } else if x in b {
        var i :| 0 <= i < |b| && b[i] == x;
      } else {
        var i :| 0 <= i < |c| && c[i] == x;
      }
    }
  }

  lemma {:induction false} AllResultsGated(pages: seq<PageData>, orders: seq<seq<BlockId>>, query: string, rt: ResultType)
    requires OrdersFor(pages, orders) && AllAcyclic(pages)
    ensures forall x :: x in AllResults(pages, orders, query, rt) ==> Allowed(rt, x.item)
  {
    if pages != [] {
      var n := |pages| - 1;
      assert OrdersFor(pages[..n], orders[..n]) && AllAcyclic(pages[..n]);
      AllResultsGated(pages[..n], orders[..n], query, rt);
      PageResultsGated(pages[n], orders[n], query, rt);
    }
  }

  /** What a search returns: every hit of the pages once, highest score
      first, ties in page and map order, and only the kinds the result
      type asks for. */
  lemma SearchResultsSpec(pages: seq<PageData>, orders: seq<seq<BlockId>>, query: string, rt: ResultType)
    requires OrdersFor(pages, orders) && AllAcyclic(pages)
    ensures var all := AllResults(pages, orders, query, rt);
      && SortedByScore(SortByScore(all))
      && multiset(SortByScore(all)) == multiset(all)
      && (forall x :: x in SortByScore(all) ==> Allowed(rt, x.item))
      && forall v :: WithScore(SortByScore(all), v) == WithScore(all, v)
  {
    var all := AllResults(pages, orders, query, rt);
    SortByScoreSpec(all);
    AllResultsGated(pages, orders, query, rt);
    forall x | x in SortByScore(all)
      ensures Allowed(rt, x.item)
    {
      assert x in multiset(SortByScore(all));
    }
  }

  // ----- get_filtered_pages, execute ---------------------------------------------------

  /** The stored pages the filter ids name, in filter order; ids with no
      stored page are skipped. */
  function FilteredPages(s: Store, ids: seq<PageId>): (r: seq<PageData>)
    ensures |r| <= |ids|
    ensures forall i :: 0 <= i < |r| ==> r[i] in s.Values
  {
    if ids == [] then []
    else
      var n := |ids| - 1;
      FilteredPages(s, ids[..n]) + if ids[n] in s then [s[ids[n]]] else []
  }

  lemma FilteredPagesStep(s: Store, ids: seq<PageId>, i: nat)
    requires i < |ids|
    ensures FilteredPages(s, ids[..i + 1]) == FilteredPages(s, ids[..i]) + if ids[i] in s then [s[ids[i]]] else []
  {
    assert ids[..i + 1][..i] == ids[..i];
  }

  /** The filtered pages are exactly the stored pages some filter id names;
      when every id names a stored page, there is one page per id. */
  lemma {:induction false} FilteredPagesSpec(s: Store, ids: seq<PageId>)
    ensures forall x :: x in FilteredPages(s, ids) <==> exists i :: 0 <= i < |ids| && ids[i] in s && s[ids[i]] == x
    ensures (forall i :: 0 <= i < |ids| ==> ids[i] in s) ==> |FilteredPages(s, ids)| == |ids|
  {
    if ids != [] {
      var n := |ids| - 1;
      var init := ids[..n];
      FilteredPagesSpec(s, init);
      forall x
        ensures x in FilteredPages(s, ids) <==> exists i :: 0 <= i < |ids| && ids[i] in s && s[ids[i]] == x
      {
        if exists i :: 0 <= i < |ids| && ids[i] in s && s[ids[i]] == x {
          var i :| 0 <= i < |ids| && ids[i] in s && s[ids[i]] == x;
          if i < n {
            assert init[i] == ids[i];
          }
        }
        if x in FilteredPages(s, init) {
          var i :| 0 <= i < n && init[i] in s && s[init[i]] == x;
          assert ids[i] == init[i];
        }
      }
    }
  }

  /** `get_filtered_pages`: looks each id up in turn. */
  method GetFilteredPages(repo: PageRepository, ids: seq<PageId>) returns (r: seq<PageData>)
    ensures r == FilteredPages(repo.pages, ids)
  {
    r := [];
    for i := 0 to |ids|
      invariant r == FilteredPages(repo.pages, ids[..i])
    {
      FilteredPagesStep(repo.pages, ids, i);
      var found := repo.FindById(ids[i]);
      if found.Some? {
        r := r + [found.value];
      }
    }
    assert ids[..|ids|] == ids;
  }

  /** The pages of a consistent store have acyclic arenas. */
  lemma StoredPagesAcyclic(s: Store, pages: seq<PageData>)
    requires Consistent(s)
    requires forall i :: 0 <= i < |pages| ==> pages[i] in s.Values
    ensures AllAcyclic(pages)
  {
    forall i | 0 <= i < |pages|
      ensures Acyclic(pages[i].blocks)
    {
      assert pages[i] in s.Values;
      var id :| id in s && s[id] == pages[i];
      StoredPageShape(s, id);
    }
  }

  /**
   * `SearchPagesAndBlocks::execute`: the pages the filter names (or every
   * stored page, in find_all order), searched as `traditional_search`
   * does. The semantic search type gives the same results: the search
   * type does not appear in what the results are.
   */
  method Execute(repo: PageRepository, req: SearchRequest)
    returns (r: seq<SearchResult>, ghost pages: seq<PageData>, ghost orders: seq<seq<BlockId>>)
    requires repo.Valid()
    ensures req.pageFilters.Some? ==> pages == FilteredPages(repo.pages, req.pageFilters.value)
    ensures req.pageFilters.None? ==>
      && |pages| == |repo.pages|
      && (forall i :: 0 <= i < |pages| ==> pages[i].id in repo.pages && repo.pages[pages[i].id] == pages[i])
      && (forall id :: id in repo.pages ==> repo.pages[id] in pages)
    ensures OrdersFor(pages, orders) && AllAcyclic(pages)
    ensures r == SortByScore(AllResults(pages, orders, ToLower(req.query), req.resultType))
  {
    var searched;
    if req.pageFilters.Some? {
      searched := GetFilteredPages(repo, req.pageFilters.value);
    } else {
      searched := repo.FindAll();
    }
    pages := searched;
    StoredPagesAcyclic(repo.pages, searched);
    match req.searchType
    case Traditional =>
      r, orders := TraditionalSearch(searched, req);
    case Semantic =>
      r, orders := TraditionalSearch(searched, req);
  }
}
