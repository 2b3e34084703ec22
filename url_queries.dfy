// The URL-to-pages query (src/application/use_cases/url_queries.rs): for
// every stored page, the blocks whose URL list holds the queried URL.
module UrlQueries {
  import opened Base
  import opened ValueObjects
  import opened Entities
  import opened BlockTree
  import opened Aggregates
  import opened PageQueries
  import opened PageRepository
  import opened SearchDto

  /** The ids among `order` whose block holds `u`, in order. */
  function BlocksWithUrl(m: BlockMap, order: seq<BlockId>, u: Url): (r: seq<BlockId>)
    requires forall i :: 0 <= i < |order| ==> order[i] in m
    ensures |r| <= |order|
  {
    if order == [] then []
    else
      var k := order[|order| - 1];
      BlocksWithUrl(m, order[..|order| - 1], u) + if u in m[k].urls then [k] else []
  }

  lemma BlocksWithUrlStep(m: BlockMap, order: seq<BlockId>, u: Url, i: nat)
    requires forall j :: 0 <= j < |order| ==> order[j] in m
    requires i < |order|
    ensures BlocksWithUrl(m, order[..i + 1], u) ==
      BlocksWithUrl(m, order[..i], u) + if u in m[order[i]].urls then [order[i]] else []
  {
    assert order[..i + 1][..i] == order[..i];
  }

  /** The ids collected are exactly the listed ids whose block holds `u`,
      each once when the list has no repeats. */
  lemma {:induction false} BlocksWithUrlMembers(m: BlockMap, order: seq<BlockId>, u: Url)
    requires forall i :: 0 <= i < |order| ==> order[i] in m
    ensures forall k :: k in BlocksWithUrl(m, order, u) <==> k in order && u in m[k].urls
    ensures NoDuplicates(order) ==> NoDuplicates(BlocksWithUrl(m, order, u))
  {
    if order != [] {
      var init, k := order[..|order| - 1], order[|order| - 1];
      BlocksWithUrlMembers(m, init, u);
      assert order == init + [k];
      if NoDuplicates(order) {
        assert NoDuplicates(init);
        assert k !in init;
      }
    }
  }

  /** Some block of the page holds `u`. */
  predicate HoldsUrl(p: PageData, u: Url) {
    exists k :: k in p.blocks && u in p.blocks[k].urls
  }

  /** The connection a page contributes: its matching blocks, if any. */
  function Connection(p: PageData, order: seq<BlockId>, u: Url): (r: Option<PageConnection>)
    requires forall i :: 0 <= i < |order| ==> order[i] in p.blocks
  {
    var ids := BlocksWithUrl(p.blocks, order, u);
    if ids == [] then None else Some(PageConnection(p.id, p.title, ids))
  }

  /** A page contributes a connection iff one of its blocks holds the URL;
      the connection carries the page's id and title and lists exactly the
      blocks holding the URL, each once. */
  lemma ConnectionSpec(p: PageData, order: seq<BlockId>, u: Url)
    requires Enumerates(order, p.blocks)
    ensures Connection(p, order, u).Some? <==> HoldsUrl(p, u)
    ensures Connection(p, order, u).Some? ==>
      var c := Connection(p, order, u).value;
      && c.pageId == p.id && c.pageTitle == p.title
      && NoDuplicates(c.blocksWithUrl)
      && forall k :: k in c.blocksWithUrl <==> k in p.blocks && u in p.blocks[k].urls
  {
    assert forall i :: 0 <= i < |order| ==> order[i] in p.blocks;
    BlocksWithUrlMembers(p.blocks, order, u);
    var ids := BlocksWithUrl(p.blocks, order, u);
    if ids != [] {
      assert ids[0] in ids;
    }
    if HoldsUrl(p, u) {
      var k :| k in p.blocks && u in p.blocks[k].urls;
      assert k in order;
      assert k in BlocksWithUrl(p.blocks, order, u);
    }
  }

  /** Every page is iterated in some order of its block map. */
  ghost predicate OrdersFor(pages: seq<PageData>, orders: seq<seq<BlockId>>) {
    |orders| == |pages| && forall i :: 0 <= i < |pages| ==> Enumerates(orders[i], pages[i].blocks)
  }

  /** The connections of a list of pages, in page order. */
  ghost function Connections(pages: seq<PageData>, orders: seq<seq<BlockId>>, u: Url): seq<PageConnection>
    requires OrdersFor(pages, orders)
  {
    if pages == [] then []
    else
      var n := |pages| - 1;
      Connections(pages[..n], orders[..n], u) +
        match Connection(pages[n], orders[n], u)
        case None => []
        case Some(c) => [c]
  }

  lemma ConnectionsStep(pages: seq<PageData>, orders: seq<seq<BlockId>>, order: seq<BlockId>, u: Url, i: nat)
    requires i < |pages| && OrdersFor(pages[..i], orders)
    requires Enumerates(order, pages[i].blocks)
    ensures OrdersFor(pages[..i + 1], orders + [order])
    ensures Connections(pages[..i + 1], orders + [order], u) ==
      Connections(pages[..i], orders, u) +
        match Connection(pages[i], order, u)
        case None => []
        case Some(c) => [c]
  {
    assert pages[..i + 1][..i] == pages[..i];
    assert (orders + [order])[..i] == orders;
  }

  /** A page's connection is among the connections. */
  lemma {:induction false} ConnectionListed(pages: seq<PageData>, orders: seq<seq<BlockId>>, u: Url, i: nat)
    requires OrdersFor(pages, orders) && i < |pages|
    requires Connection(pages[i], orders[i], u).Some?
    ensures Connection(pages[i], orders[i], u).value in Connections(pages, orders, u)
  {
    var n := |pages| - 1;
    assert OrdersFor(pages[..n], orders[..n]);
    if i < n {
      ConnectionListed(pages[..n], orders[..n], u, i);
    }
  }

  /** Every connection is the connection of one of the pages. */
  lemma {:induction false} ConnectionOrigin(pages: seq<PageData>, orders: seq<seq<BlockId>>, u: Url, j: nat)
    returns (i: nat)
    requires OrdersFor(pages, orders) && j < |Connections(pages, orders, u)|
    ensures i < |pages| && Connection(pages[i], orders[i], u) == Some(Connections(pages, orders, u)[j])
  {
    var n := |pages| - 1;
    var init, os := pages[..n], orders[..n];
    assert OrdersFor(init, os);
    if j < |Connections(init, os, u)| {
      i := ConnectionOrigin(init, os, u, j);
    } else {
      i := n;
    }
  }

  /** With distinct page ids there is at most one connection per page. */
  lemma {:induction false} ConnectionsDistinct(pages: seq<PageData>, orders: seq<seq<BlockId>>, u: Url)
    requires OrdersFor(pages, orders)
    requires forall i, j :: 0 <= i < j < |pages| ==> pages[i].id != pages[j].id
    ensures forall j, j' :: 0 <= j < j' < |Connections(pages, orders, u)| ==>
      Connections(pages, orders, u)[j].pageId != Connections(pages, orders, u)[j'].pageId
  {
    if pages != [] {
      var n := |pages| - 1;
      var init, os := pages[..n], orders[..n];
      assert OrdersFor(init, os);
      ConnectionsDistinct(init, os, u);
      var r0, r := Connections(init, os, u), Connections(pages, orders, u);
      forall j, j' | 0 <= j < j' < |r|
        ensures r[j].pageId != r[j'].pageId
      {
        if j' >= |r0| {
          var i := ConnectionOrigin(init, os, u, j);
          assert r[j] == r0[j];
          assert r[j].pageId == pages[i].id;
          assert r[j'].pageId == pages[n].id;
        } else {
          assert r[j] == r0[j] && r[j'] == r0[j'];
        }
      }
    }
  }

  /** No page holding the URL gives no connection. */
  lemma NoHolderNoConnections(pages: seq<PageData>, orders: seq<seq<BlockId>>, u: Url)
    requires OrdersFor(pages, orders)
    requires forall i :: 0 <= i < |pages| ==> !HoldsUrl(pages[i], u)
    ensures Connections(pages, orders, u) == []
  {
    if Connections(pages, orders, u) != [] {
      var i := ConnectionOrigin(pages, orders, u, 0);
      ConnectionSpec(pages[i], orders[i], u);
    }
  }

  /** The inner loop: the blocks of one page, in map order, that hold `u`. */
  method BlocksHoldingUrl(p: PageData, order: seq<BlockId>, u: Url) returns (ids: seq<BlockId>)
    requires IdsMatch(p.blocks)
    requires forall i :: 0 <= i < |order| ==> order[i] in p.blocks
    ensures ids == BlocksWithUrl(p.blocks, order, u)
  {
    ids := [];
    for i := 0 to |order|
      invariant ids == BlocksWithUrl(p.blocks, order[..i], u)
    {
      BlocksWithUrlStep(p.blocks, order, u, i);
      var b := p.blocks[order[i]];
      if u in b.urls {
        ids := ids + [b.id];
      }
    }
    assert order[..|order|] == order;
  }

  /** One page's contribution, with the block order the map gives. */
  method PageConnectionOf(page: PageData, u: Url) returns (c: Option<PageConnection>, ghost order: seq<BlockId>)
    requires IdsMatch(page.blocks)
    ensures Enumerates(order, page.blocks)
    ensures c == Connection(page, order, u)
  {
    var keys := KeysInSomeOrder(page.blocks);
    order := keys;
    var ids := BlocksHoldingUrl(page, keys, u);
    c := if ids == [] then None else Some(PageConnection(page.id, page.title, ids));
  }

  /**
   * `GetPagesForUrl::execute`: every stored page, in the order find_all
   * gives, contributes a connection when some of its blocks hold the URL.
   * The ghost outputs are that page order and each page's block order.
   */
  method GetPagesForUrl(repo: PageRepository, u: Url)
    returns (r: seq<PageConnection>, ghost pages: seq<PageData>, ghost orders: seq<seq<BlockId>>)
    requires repo.Valid()
    ensures |pages| == |repo.pages|
    ensures forall i :: 0 <= i < |pages| ==> pages[i].id in repo.pages && repo.pages[pages[i].id] == pages[i]
    ensures forall id :: id in repo.pages ==> repo.pages[id] in pages
    ensures forall i, j :: 0 <= i < j < |pages| ==> pages[i].id != pages[j].id
    ensures OrdersFor(pages, orders)
    ensures r == Connections(pages, orders, u)
  {
    var all := repo.FindAll();
    ghost var s := repo.pages;
    pages, orders := all, [];
    r := [];
    for i := 0 to |all|
      invariant OrdersFor(all[..i], orders)
      invariant r == Connections(all[..i], orders, u)
    {
      StoredPageShape(s, all[i].id);
      var c, order := PageConnectionOf(all[i], u);
      ConnectionsStep(all, orders, order, u, i);
      orders := orders + [order];
      if c.Some? {
        r := r + [c.value];
      }
    }
    assert all[..|all|] == all;
  }
}
