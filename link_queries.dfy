// The page-links query (src/application/use_cases/link_queries.rs): every
// URL of a page with the block found to hold it, that block's hierarchy
// path and the page references around the URL.
module LinkQueries {
  import opened Base
  import opened ValueObjects
  import opened Entities
  import opened BlockTree
  import opened Aggregates
  import opened PageQueries
  import opened PageRepository
  import opened SearchDto

  /** The text of each block, in order. */
  function Contents(bs: seq<Block>): (r: seq<string>)
    ensures |r| == |bs| && forall i :: 0 <= i < |bs| ==> r[i] == bs[i].content.text
  {
    if bs == [] then [] else Contents(bs[..|bs| - 1]) + [bs[|bs| - 1].content.text]
  }

  /** The position, from `from` on, of the first block of `order` whose URL
      list holds `u`: what `all_blocks().find(..)` stops at. */
  function FirstHolder(m: BlockMap, order: seq<BlockId>, u: Url, from: nat): (r: Option<nat>)
    requires from <= |order|
    requires forall i :: 0 <= i < |order| ==> order[i] in m
    ensures r.Some? ==> from <= r.value < |order| && u in m[order[r.value]].urls
    ensures r.Some? ==> forall j :: from <= j < r.value ==> u !in m[order[j]].urls
    ensures r.None? ==> forall j :: from <= j < |order| ==> u !in m[order[j]].urls
    decreases |order| - from
  {
    if from == |order| then None
    else if u in m[order[from]].urls then Some(from)
    else FirstHolder(m, order, u, from + 1)
  }

  /** The record reported for one `(url, ancestor refs, descendant refs)`
      triple, when some block holds the URL. */
  ghost function LinkOf(m: BlockMap, order: seq<BlockId>, t: (Url, seq<PageReference>, seq<PageReference>))
    : Option<UrlWithContext>
    requires Acyclic(m)
    requires forall i :: 0 <= i < |order| ==> order[i] in m
  {
    match FirstHolder(m, order, t.0, 0)
    case None => None
    case Some(j) =>
      var b := m[order[j]];
      Some(UrlWithContext(t.0, b.id, b.content.text, Contents(BlocksOf(m, PathIds(m, b.id))), t.1 + t.2))
  }

  /** The records for a list of triples, in order, skipping URLs no block holds. */
  ghost function Links(m: BlockMap, order: seq<BlockId>, ts: seq<(Url, seq<PageReference>, seq<PageReference>)>)
    : seq<UrlWithContext>
    requires Acyclic(m)
    requires forall i :: 0 <= i < |order| ==> order[i] in m
  {
    if ts == [] then []
    else
      Links(m, order, ts[..|ts| - 1]) +
        match LinkOf(m, order, ts[|ts| - 1])
        case None => []
        case Some(l) => [l]
  }

  lemma LinksStep(m: BlockMap, order: seq<BlockId>, ts: seq<(Url, seq<PageReference>, seq<PageReference>)>, i: nat)
    requires Acyclic(m)
    requires forall j :: 0 <= j < |order| ==> order[j] in m
    requires i < |ts|
    ensures Links(m, order, ts[..i + 1]) ==
      Links(m, order, ts[..i]) +
        match LinkOf(m, order, ts[i])
        case None => []
        case Some(l) => [l]
  {
    assert ts[..i + 1][..i] == ts[..i];
  }

  /** `find`: the first block of `order` holding `u`. */
  method FindHolder(p: PageData, order: seq<BlockId>, u: Url) returns (b: Option<Block>)
    requires forall i :: 0 <= i < |order| ==> order[i] in p.blocks
    ensures b.Some? <==> FirstHolder(p.blocks, order, u, 0).Some?
    ensures b.Some? ==> b.value == p.blocks[order[FirstHolder(p.blocks, order, u, 0).value]]
  {
    for i := 0 to |order|
      invariant FirstHolder(p.blocks, order, u, 0) == FirstHolder(p.blocks, order, u, i)
    {
      var candidate := p.blocks[order[i]];
      if u in candidate.urls {
        return Some(candidate);
      }
    }
    return None;
  }

  /**
   * `GetLinksForPage::execute`: a missing page is NotFound; otherwise each
   * URL triple of `get_urls_with_context` is reported with the first block
   * holding its URL, that block's hierarchy path as contents, and the
   * triple's ancestor references followed by its descendant references.
   * The ghost output is the map order both iterations follow.
   */
  method GetLinksForPage(repo: PageRepository, pageId: PageId)
    returns (r: Result<seq<UrlWithContext>, DomainError>, ghost order: seq<BlockId>)
    requires repo.Valid()
    ensures r.Err? <==> pageId !in repo.pages
    ensures r.Err? ==> r.error == NotFound("Page with id " + DebugPageId(pageId) + " not found")
    ensures r.Ok? ==>
      var m := repo.pages[pageId].blocks;
      && Acyclic(m) && Enumerates(order, m)
      && r.value == Links(m, order, UrlContexts(m, order))
  {
    var found := repo.FindById(pageId);
    if found.None? {
      r, order := Err(NotFound("Page with id " + DebugPageId(pageId) + " not found")), [];
      return;
    }
    var page := found.value;
    StoredPageShape(repo.pages, pageId);
    var m := page.blocks;
    var keys := KeysInSomeOrder(m);
    order := keys;
    var triples := GetUrlsWithContext(page, keys);
    var results := [];
    for i := 0 to |triples|
      invariant results == Links(m, keys, triples[..i])
    {
      LinksStep(m, keys, triples, i);
      var t := triples[i];
      var holder := FindHolder(page, keys, t.0);
      if holder.Some? {
        var b := holder.value;
        var path := GetHierarchyPath(page, b.id);
        results := results + [UrlWithContext(t.0, b.id, b.content.text, Contents(path), t.1 + t.2)];
      }
    }
    assert triples[..|triples|] == triples;
    r := Ok(results);
  }

  /** When every URL of the triples is held by a block of `order`, there is
      one record per triple. */
  lemma {:induction false} LinksAllFound(m: BlockMap, order: seq<BlockId>, ts: seq<(Url, seq<PageReference>, seq<PageReference>)>)
    requires Acyclic(m)
    requires forall i :: 0 <= i < |order| ==> order[i] in m
    requires forall i :: 0 <= i < |ts| ==> LinkOf(m, order, ts[i]).Some?
    ensures |Links(m, order, ts)| == |ts|
    ensures forall i :: 0 <= i < |ts| ==> Links(m, order, ts)[i] == LinkOf(m, order, ts[i]).value
  {
    if ts != [] {
      var n := |ts| - 1;
      var init := ts[..n];
      LinksAllFound(m, order, init);
      var r0, r := Links(m, order, init), Links(m, order, ts);
      assert r == r0 + [LinkOf(m, order, ts[n]).value];
      forall i | 0 <= i < |ts|
        ensures r[i] == LinkOf(m, order, ts[i]).value
      {
        if i < n {
          assert init[i] == ts[i] && r[i] == r0[i];
        }
      }
    }
  }

  /** A record found for a triple: the triple's URL, a block holding it
      (the first in map order), its content, its hierarchy path ending in
      that content, and the triple's references. */
  lemma LinkOfSpec(p: PageData, order: seq<BlockId>, t: (Url, seq<PageReference>, seq<PageReference>))
    requires WellFormed(p) && Enumerates(order, p.blocks)
    requires exists k :: k in p.blocks && t.0 in p.blocks[k].urls
    ensures LinkOf(p.blocks, order, t).Some?
    ensures
      var l := LinkOf(p.blocks, order, t).value;
      && l.url == t.0 && l.relatedPageRefs == t.1 + t.2
      && l.blockId in p.blocks && t.0 in p.blocks[l.blockId].urls
      && l.blockContent == p.blocks[l.blockId].content.text
      && (forall j :: 0 <= j < |order| && order[j] == l.blockId ==>
            forall j' :: 0 <= j' < j ==> t.0 !in p.blocks[order[j']].urls)
      && |l.hierarchyPath| == |AncestorIds(p.blocks, l.blockId)| + 1
      && l.hierarchyPath[|l.hierarchyPath| - 1] == l.blockContent
  {
    var m := p.blocks;
    var k :| k in m && t.0 in m[k].urls;
    assert k in order;
    var j0 :| 0 <= j0 < |order| && order[j0] == k;
    assert FirstHolder(m, order, t.0, 0).Some?;
    var j := FirstHolder(m, order, t.0, 0).value;
    var b := m[order[j]];
    assert b.id == order[j];
    forall j1 | 0 <= j1 < |order| && order[j1] == b.id
      ensures j1 == j
    {
      assert NoDuplicates(order);
    }
    HierarchyPathShape(p, b.id);
  }

  /** What the page-links query reports for a page: one record per URL of
      `all_urls`, in the same order, each as `LinkOfSpec` describes, and
      the references of a record are those around some block holding its
      URL. */
  lemma LinksForPage(p: PageData, order: seq<BlockId>)
    requires WellFormed(p) && Enumerates(order, p.blocks)
    ensures
      var m := p.blocks;
      var r := Links(m, order, UrlContexts(m, order));
      && |r| == |AllUrls(p, order)|
      && forall i :: 0 <= i < |r| ==>
        && r[i].url == AllUrls(p, order)[i]
        && r[i].blockId in m && r[i].url in m[r[i].blockId].urls
        && r[i].blockContent == m[r[i].blockId].content.text
        && |r[i].hierarchyPath| == |AncestorIds(m, r[i].blockId)| + 1
        && r[i].hierarchyPath[|r[i].hierarchyPath| - 1] == r[i].blockContent
        && (exists k :: k in m && r[i].url in m[k].urls &&
             r[i].relatedPageRefs == RefsOf(m, AncestorIds(m, k)) + RefsOf(m, Descendants(m, k)))
  {
    var m := p.blocks;
    var ts := UrlContexts(m, order);
    UrlContextsMatchAllUrls(m, order);
    forall i | 0 <= i < |ts|
      ensures LinkOf(m, order, ts[i]).Some?
      ensures exists k :: k in m && ts[i].0 in m[k].urls && ts[i] == UrlInContext(m, m[k], ts[i].0)
    {
      UrlContextsOrigin(m, order, i);
      var k :| k in order && ts[i].0 in m[k].urls && ts[i] == UrlInContext(m, m[k], ts[i].0);
      LinkOfSpec(p, order, ts[i]);
    }
    LinksAllFound(m, order, ts);
    var r := Links(m, order, ts);
    forall i | 0 <= i < |r|
      ensures r[i].url == AllUrls(p, order)[i]
      ensures r[i].blockId in m && r[i].url in m[r[i].blockId].urls
      ensures r[i].blockContent == m[r[i].blockId].content.text
      ensures |r[i].hierarchyPath| == |AncestorIds(m, r[i].blockId)| + 1
      ensures r[i].hierarchyPath[|r[i].hierarchyPath| - 1] == r[i].blockContent
      ensures exists k :: (k in m && r[i].url in m[k].urls &&
        r[i].relatedPageRefs == RefsOf(m, AncestorIds(m, k)) + RefsOf(m, Descendants(m, k)))
    {
      LinkOfSpec(p, order, ts[i]);
      var k :| k in m && ts[i].0 in m[k].urls && ts[i] == UrlInContext(m, m[k], ts[i].0);
      assert r[i].relatedPageRefs == RefsOf(m, AncestorIds(m, k)) + RefsOf(m, Descendants(m, k));
    }
  }

  /** When only one block holds a URL, its record names that block and the
      references around that same block. */
  lemma LinkOfSoleHolder(p: PageData, order: seq<BlockId>, k: BlockId, u: Url)
    requires WellFormed(p) && Enumerates(order, p.blocks)
    requires k in p.blocks && u in p.blocks[k].urls
    requires forall k' :: k' in p.blocks && u in p.blocks[k'].urls ==> k' == k
    ensures LinkOf(p.blocks, order, UrlInContext(p.blocks, p.blocks[k], u)).Some?
    ensures
      var l := LinkOf(p.blocks, order, UrlInContext(p.blocks, p.blocks[k], u)).value;
      && l.blockId == k
      && l.relatedPageRefs == RefsOf(p.blocks, AncestorIds(p.blocks, k)) + RefsOf(p.blocks, Descendants(p.blocks, k))
  {
    LinkOfSpec(p, order, UrlInContext(p.blocks, p.blocks[k], u));
  }
}
