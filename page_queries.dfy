// The read-only traversals of the Page aggregate (src/domain/aggregates.rs):
// root blocks, all links, ancestors, descendants, the hierarchy path and
// the link-with-context queries. They take the page as a value, as every
// caller holds an owned or borrowed page. The order in which the block
// map is iterated is not specified, so it is a parameter `order` that
// lists every stored id once.
module PageQueries {
  import opened Base
  import opened ValueObjects
  import opened Entities
  import opened BlockTree
  import opened Aggregates

  /** `order` is an iteration order of the block map: every stored id once. */
  ghost predicate Enumerates(order: seq<BlockId>, m: BlockMap) {
    && NoDuplicates(order)
    && (forall k {:trigger k in m} :: k in order <==> k in m)
  }

  /** The URLs of the blocks `ids`, block by block (a `flat_map`). */
  function UrlsOf(m: BlockMap, ids: seq<BlockId>): (r: seq<Url>)
    requires forall i :: 0 <= i < |ids| ==> ids[i] in m
  {
    if ids == [] then [] else m[ids[0]].urls + UrlsOf(m, ids[1..])
  }

  /** The page references of the blocks `ids`, block by block. */
  function RefsOf(m: BlockMap, ids: seq<BlockId>): (r: seq<PageReference>)
    requires forall i :: 0 <= i < |ids| ==> ids[i] in m
  {
    if ids == [] then [] else m[ids[0]].pageReferences + RefsOf(m, ids[1..])
  }

  /** The URLs of a list of blocks, in order. */
  function UrlsOfBlocks(bs: seq<Block>): seq<Url> {
    if bs == [] then [] else bs[0].urls + UrlsOfBlocks(bs[1..])
  }

  /** The page references of a list of blocks, in order. */
  function RefsOfBlocks(bs: seq<Block>): seq<PageReference> {
    if bs == [] then [] else bs[0].pageReferences + RefsOfBlocks(bs[1..])
  }

  /** Total number of URLs stored in the blocks `ids`. */
  function UrlCount(m: BlockMap, ids: seq<BlockId>): nat
    requires forall i :: 0 <= i < |ids| ==> ids[i] in m
  {
    if ids == [] then 0 else |m[ids[0]].urls| + UrlCount(m, ids[1..])
  }

  /** Total number of page references stored in the blocks `ids`. */
  function RefCount(m: BlockMap, ids: seq<BlockId>): nat
    requires forall i :: 0 <= i < |ids| ==> ids[i] in m
  {
    if ids == [] then 0 else |m[ids[0]].pageReferences| + RefCount(m, ids[1..])
  }

  // ----- get_block, root_blocks, all_urls, all_page_references ----------------

  /** `get_block`: the block stored under `k`, if any. */
  function GetBlock(p: PageData, k: BlockId): (r: Option<Block>)
    ensures r.Some? <==> k in p.blocks
    ensures r.Some? ==> r.value in p.blocks.Values
  {
    if k in p.blocks then Some(p.blocks[k]) else None
  }

  /** A block added under a fresh id with a stored parent is then found
      under that id, and every other id finds what it found before except
      the parent, which now lists the block as a child. */
  lemma AddedBlockIsFound(p: PageData, b: Block, k: BlockId)
    requires b.parentId.Some? ==> b.parentId.value in p.blocks
    requires b.id !in p.blocks
    ensures GetBlock(p.(blocks := AddedBlocks(p.blocks, b)), b.id) == Some(b)
    ensures k != b.id && Some(k) != b.parentId ==>
      GetBlock(p.(blocks := AddedBlocks(p.blocks, b)), k) == GetBlock(p, k)
    ensures b.parentId.Some? ==>
      var q := GetBlock(p.(blocks := AddedBlocks(p.blocks, b)), b.parentId.value);
      q.Some? && b.id in q.value.childIds
  {
  }


  /** `root_blocks`: the stored blocks named by the root list, in its order. */
  function RootBlocks(p: PageData): (r: seq<Block>)
    ensures |r| <= |p.rootIds|
    ensures forall i :: 0 <= i < |r| ==> r[i] in p.blocks.Values
  {
    RootBlocksOf(p.blocks, p.rootIds)
  }

  function RootBlocksOf(m: BlockMap, roots: seq<BlockId>): (r: seq<Block>)
    ensures |r| <= |roots|
    ensures forall i :: 0 <= i < |r| ==> r[i] in m.Values
  {
    if roots == [] then []
    else (if roots[0] in m then [m[roots[0]]] else []) + RootBlocksOf(m, roots[1..])
  }

  /** In a well-formed page the root blocks are exactly the stored blocks
      without a parent, listed once each. */
  lemma RootBlocksAreRoots(p: PageData, b: Block)
    requires WellFormed(p)
    ensures b in RootBlocks(p) <==> b in p.blocks.Values && b.IsRoot()
  {
    var m, roots := p.blocks, p.rootIds;
    assert forall i :: 0 <= i < |roots| ==> roots[i] in roots;
    RootBlocksMembers(m, roots, b);
    if b in m.Values && b.IsRoot() {
      var k :| k in m && m[k] == b;
      assert m[k].parentId.None?;
      assert k in roots;
      var i :| 0 <= i < |roots| && roots[i] == k;
    }
  }

  lemma {:induction false} RootBlocksMembers(m: BlockMap, roots: seq<BlockId>, b: Block)
    requires forall i :: 0 <= i < |roots| ==> roots[i] in m
    ensures b in RootBlocksOf(m, roots) <==> exists i :: 0 <= i < |roots| && m[roots[i]] == b
  {
    if roots != [] {
      RootBlocksMembers(m, roots[1..], b);
      assert forall i :: 0 < i < |roots| ==> roots[i] == roots[1..][i - 1];
      if exists i :: 0 <= i < |roots| && m[roots[i]] == b {
        var i :| 0 <= i < |roots| && m[roots[i]] == b;
        if i > 0 {
          assert m[roots[1..][i - 1]] == b;
        }
      }
    }
  }

  /** `all_urls`: every URL of every block, block by block in map order. */
  function AllUrls(p: PageData, order: seq<BlockId>): (r: seq<Url>)
    requires forall i :: 0 <= i < |order| ==> order[i] in p.blocks
  {
    UrlsOf(p.blocks, order)
  }

  /** `all_page_references`: every reference of every block, block by block. */
  function AllPageReferences(p: PageData, order: seq<BlockId>): (r: seq<PageReference>)
    requires forall i :: 0 <= i < |order| ==> order[i] in p.blocks
  {
    RefsOf(p.blocks, order)
  }

  /** `all_urls` holds as many URLs as the blocks hold together, and exactly
      the URLs some block holds. */
  lemma AllUrlsCount(p: PageData, order: seq<BlockId>)
    requires Enumerates(order, p.blocks)
    ensures |AllUrls(p, order)| == UrlCount(p.blocks, order)
    ensures forall u :: u in AllUrls(p, order) <==> exists k :: k in p.blocks && u in p.blocks[k].urls
  {
    UrlsOfCount(p.blocks, order);
    forall u ensures u in AllUrls(p, order) <==> exists k :: k in p.blocks && u in p.blocks[k].urls {
      UrlsOfMembers(p.blocks, order, u);
      if exists k :: k in p.blocks && u in p.blocks[k].urls {
        var k :| k in p.blocks && u in p.blocks[k].urls;
        assert k in order;
      }
    }
  }

  /** `all_page_references` holds as many references as the blocks hold
      together, and exactly the references some block holds. */
  lemma AllPageReferencesCount(p: PageData, order: seq<BlockId>)
    requires Enumerates(order, p.blocks)
    ensures |AllPageReferences(p, order)| == RefCount(p.blocks, order)
    ensures forall x :: x in AllPageReferences(p, order) <==> exists k :: k in p.blocks && x in p.blocks[k].pageReferences
  {
    RefsOfCount(p.blocks, order);
    forall x ensures x in AllPageReferences(p, order) <==> exists k :: k in p.blocks && x in p.blocks[k].pageReferences {
      RefsOfMembers(p.blocks, order, x);
      if exists k :: k in p.blocks && x in p.blocks[k].pageReferences {
        var k :| k in p.blocks && x in p.blocks[k].pageReferences;
        assert k in order;
      }
    }
  }

  lemma {:induction false} UrlsOfCount(m: BlockMap, ids: seq<BlockId>)
    requires forall i :: 0 <= i < |ids| ==> ids[i] in m
    ensures |UrlsOf(m, ids)| == UrlCount(m, ids)
  {
    if ids != [] {
      UrlsOfCount(m, ids[1..]);
    }
  }

  lemma {:induction false} RefsOfCount(m: BlockMap, ids: seq<BlockId>)
    requires forall i :: 0 <= i < |ids| ==> ids[i] in m
    ensures |RefsOf(m, ids)| == RefCount(m, ids)
  {
    if ids != [] {
      RefsOfCount(m, ids[1..]);
    }
  }

  lemma {:induction false} UrlsOfMembers(m: BlockMap, ids: seq<BlockId>, u: Url)
    requires forall i :: 0 <= i < |ids| ==> ids[i] in m
    ensures u in UrlsOf(m, ids) <==> exists k :: k in ids && u in m[k].urls
  {
    if ids != [] {
      UrlsOfMembers(m, ids[1..], u);
      if exists k :: k in ids && u in m[k].urls {
        var k :| k in ids && u in m[k].urls;
        if k != ids[0] {
          assert k in ids[1..];
        }
      }
    }
  }

  lemma {:induction false} RefsOfMembers(m: BlockMap, ids: seq<BlockId>, x: PageReference)
    requires forall i :: 0 <= i < |ids| ==> ids[i] in m
    ensures x in RefsOf(m, ids) <==> exists k :: k in ids && x in m[k].pageReferences
  {
    if ids != [] {
      RefsOfMembers(m, ids[1..], x);
      if exists k :: k in ids && x in m[k].pageReferences {
        var k :| k in ids && x in m[k].pageReferences;
        if k != ids[0] {
          assert k in ids[1..];
        }
      }
    }
  }

  lemma {:induction false} UrlsOfBlocksOf(m: BlockMap, ids: seq<BlockId>)
    requires forall i :: 0 <= i < |ids| ==> ids[i] in m
    ensures UrlsOfBlocks(BlocksOf(m, ids)) == UrlsOf(m, ids)
  {
    if ids != [] {
      UrlsOfBlocksOf(m, ids[1..]);
      assert BlocksOf(m, ids)[1..] == BlocksOf(m, ids[1..]);
    }
  }

  lemma {:induction false} RefsOfBlocksOf(m: BlockMap, ids: seq<BlockId>)
    requires forall i :: 0 <= i < |ids| ==> ids[i] in m
    ensures RefsOfBlocks(BlocksOf(m, ids)) == RefsOf(m, ids)
  {
    if ids != [] {
      RefsOfBlocksOf(m, ids[1..]);
      assert BlocksOf(m, ids)[1..] == BlocksOf(m, ids[1..]);
    }
  }

  lemma {:induction false} UrlsOfAppend(m: BlockMap, ids: seq<BlockId>, k: BlockId)
    requires forall i :: 0 <= i < |ids| ==> ids[i] in m
    requires k in m
    ensures UrlsOf(m, ids + [k]) == UrlsOf(m, ids) + m[k].urls
  {
    if ids == [] {
      assert [k][1..] == [];
    } else {
      assert (ids + [k])[1..] == ids[1..] + [k];
      UrlsOfAppend(m, ids[1..], k);
    }
  }

  lemma {:induction false} RefsOfAppend(m: BlockMap, ids: seq<BlockId>, k: BlockId)
    requires forall i :: 0 <= i < |ids| ==> ids[i] in m
    requires k in m
    ensures RefsOf(m, ids + [k]) == RefsOf(m, ids) + m[k].pageReferences
  {
    if ids == [] {
      assert [k][1..] == [];
    } else {
      assert (ids + [k])[1..] == ids[1..] + [k];
      RefsOfAppend(m, ids[1..], k);
    }
  }

  // ----- get_ancestors ----------------------------------------------------------

  /**
   * `get_ancestors`: starting at `k`, as long as the current block is stored
   * and its declared parent is stored too, that parent is collected and
   * becomes the current block.
   */
  method GetAncestors(p: PageData, k: BlockId) returns (r: seq<Block>)
    requires Acyclic(p.blocks)
    ensures r == BlocksOf(p.blocks, AncestorIds(p.blocks, k))
  {
    var m := p.blocks;
    r := [];
    ghost var ids: seq<BlockId> := [];
    var cur := k;
    while cur in m && m[cur].parentId.Some? && m[cur].parentId.value in m
      invariant forall i :: 0 <= i < |ids| ==> ids[i] in m
      invariant r == BlocksOf(m, ids)
      invariant ids + AncestorIds(m, cur) == AncestorIds(m, k)
      decreases Depth(m, cur)
    {
      var parent := m[cur].parentId.value;
      AncestorIdsStep(m, cur);
      BlocksOfAppend(m, ids, parent);
      r := r + [m[parent]];
      ids := ids + [parent];
      cur := parent;
    }
    assert StoredParent(m, cur).None?;
    assert ids + [] == ids;
  }

  /** One step of the ancestor walk: the stored parent comes first and is shallower. */
  lemma AncestorIdsStep(m: BlockMap, cur: BlockId)
    requires Acyclic(m) && cur in m && m[cur].parentId.Some? && m[cur].parentId.value in m
    ensures AncestorIds(m, cur) == [m[cur].parentId.value] + AncestorIds(m, m[cur].parentId.value)
    ensures Depth(m, m[cur].parentId.value) < Depth(m, cur)
  {
    assert StoredParent(m, cur) == Some(m[cur].parentId.value);
  }

  /** In a tree the ancestors run from the parent of `k` up to a root, each
      one the parent of the one before; a root has none. */
  lemma AncestorsUpToRoot(p: PageData, k: BlockId)
    requires WellFormed(p) && k in p.blocks
    ensures var a := AncestorIds(p.blocks, k);
      && (a == [] <==> p.blocks[k].IsRoot())
      && (a != [] ==> p.blocks[k].parentId == Some(a[0]))
      && (forall i :: 0 <= i < |a| - 1 ==> p.blocks[a[i]].parentId == Some(a[i + 1]))
      && (a != [] ==> a[|a| - 1] in p.rootIds && p.blocks[a[|a| - 1]].IsRoot())
  {
    var m := p.blocks;
    var a := AncestorIds(m, k);
    var c := Chain(m, k);
    assert c == [k] + a;
    ChainLinks(m, k);
    TreeParentStored(m, p.rootIds, k);
    forall i | 0 <= i < |a| - 1
      ensures m[a[i]].parentId == Some(a[i + 1])
    {
      assert c[i + 1] == a[i] && c[i + 2] == a[i + 1];
      TreeParentStored(m, p.rootIds, a[i]);
    }
    if a != [] {
      ChainEndsAtRoot(m, p.rootIds, k);
      assert c[|c| - 1] == a[|a| - 1];
    }
  }

  /** In a tree, `a` is an ancestor of `k` exactly when `k` is a descendant
      of `a`: the two traversals are mirror images. */
  lemma AncestorIffDescendant(p: PageData, a: BlockId, k: BlockId)
    requires WellFormed(p) && a in p.blocks && k in p.blocks
    ensures a in AncestorIds(p.blocks, k) <==> k in Descendants(p.blocks, a)
  {
    DescendantsAreSubtree(p.blocks, p.rootIds, a, k);
    NotOwnAncestor(p.blocks, k);
  }

  /** A block is never among its own ancestors. */
  lemma NotOwnAncestor(m: BlockMap, k: BlockId)
    requires Acyclic(m)
    ensures k !in AncestorIds(m, k)
    ensures Chain(m, k) == [k] + AncestorIds(m, k)
  {
    ChainDistinct(m, k);
    var c := Chain(m, k);
    assert c == [k] + AncestorIds(m, k);
    forall t | 0 <= t < |AncestorIds(m, k)|
      ensures AncestorIds(m, k)[t] != k
    {
      assert c[t + 1] == AncestorIds(m, k)[t] && c[0] == k;
    }
  }

  /** A block is neither among its own ancestors nor among its own
      descendants, so the context queries never report a block's own links
      as its context. */
  lemma ContextExcludesSelf(p: PageData, k: BlockId)
    requires WellFormed(p) && k in p.blocks
    ensures k !in AncestorIds(p.blocks, k) && k !in Descendants(p.blocks, k)
  {
    NotOwnAncestor(p.blocks, k);
    DescendantsAreSubtree(p.blocks, p.rootIds, k, k);
  }

  // ----- get_descendants --------------------------------------------------------

  /**
   * `get_descendants`: for each id in the child list of `x`, in order, a
   * stored child is collected and followed by its own descendants; ids that
   * are not stored are skipped.
   */
  method GetDescendants(p: PageData, x: BlockId) returns (r: seq<Block>)
    requires Acyclic(p.blocks)
    ensures r == BlocksOf(p.blocks, Descendants(p.blocks, x))
    decreases Height(p.blocks, x)
  {
    var m := p.blocks;
    r := [];
    if x in m {
      var cs := m[x].childIds;
      for i := 0 to |cs|
        invariant r + BlocksOf(m, DescendantsFrom(m, x, i)) == BlocksOf(m, DescendantsFrom(m, x, 0))
      {
        DescendantBlocksStep(m, x, i);
        var c := cs[i];
        var found: seq<Block> := [];
        if c in m {
          assert c in m[x].childIds;
          var below := GetDescendants(p, c);
          found := [m[c]] + below;
        }
        ghost var rest := BlocksOf(m, DescendantsFrom(m, x, i + 1));
        assert (r + found) + rest == r + (found + rest);
        r := r + found;
      }
      assert BlocksOf(m, DescendantsFrom(m, x, |cs|)) == [];
    }
  }

  /** The blocks the walk from position `i` collects: the child at `i` and what lies below it, then the rest. */
  lemma DescendantBlocksStep(m: BlockMap, x: BlockId, i: nat)
    requires Acyclic(m) && x in m && i < |m[x].childIds|
    ensures var c := m[x].childIds[i];
      BlocksOf(m, DescendantsFrom(m, x, i)) ==
        (if c in m then [m[c]] + BlocksOf(m, Descendants(m, c)) else []) + BlocksOf(m, DescendantsFrom(m, x, i + 1))
  {
    var c := m[x].childIds[i];
    var head := if c in m then [c] + Descendants(m, c) else [];
    assert DescendantsFrom(m, x, i) == head + DescendantsFrom(m, x, i + 1);
    BlocksOfConcat(m, head, DescendantsFrom(m, x, i + 1));
    if c in m {
      BlocksOfConcat(m, [c], Descendants(m, c));
    }
  }

  // ----- get_hierarchy_path -------------------------------------------------------

  function Reverse<T>(s: seq<T>): (r: seq<T>)
    ensures |r| == |s| && forall i :: 0 <= i < |s| ==> r[i] == s[|s| - 1 - i]
  {
    if s == [] then [] else Reverse(s[1..]) + [s[0]]
  }

  /** The ids of the hierarchy path: the ancestors root first, then `k`
      itself when it is stored. */
  ghost function PathIds(m: BlockMap, k: BlockId): (r: seq<BlockId>)
    requires Acyclic(m)
    ensures forall i :: 0 <= i < |r| ==> r[i] in m
  {
    Reverse(AncestorIds(m, k)) + if k in m then [k] else []
  }

  /** `get_hierarchy_path`: the ancestors reversed, then the block itself. */
  method GetHierarchyPath(p: PageData, k: BlockId) returns (r: seq<Block>)
    requires Acyclic(p.blocks)
    ensures r == BlocksOf(p.blocks, PathIds(p.blocks, k))
  {
    var ancestors := GetAncestors(p, k);
    r := Reverse(ancestors);
    if k in p.blocks {
      r := r + [p.blocks[k]];
    }
  }

  /** An upward chain from `k`, reversed and closed by `k`, links each
      entry to the next as its parent. */
  lemma ReversedLinks(m: BlockMap, k: BlockId, a: seq<BlockId>)
    requires a != [] && k in m && m[k].parentId == Some(a[0])
    requires forall i :: 0 <= i < |a| ==> a[i] in m
    requires forall i :: 0 <= i < |a| - 1 ==> m[a[i]].parentId == Some(a[i + 1])
    ensures var path := Reverse(a) + [k];
      forall i :: 0 <= i < |path| - 1 ==> m[path[i + 1]].parentId == Some(path[i])
  {
    var path := Reverse(a) + [k];
    forall i | 0 <= i < |path| - 1
      ensures m[path[i + 1]].parentId == Some(path[i])
    {
      if i + 1 == |path| - 1 {
        assert path[i] == a[0];
      } else {
        assert path[i] == a[|a| - 1 - i] && path[i + 1] == a[|a| - 2 - i];
      }
    }
  }

  /** In a tree the hierarchy path of a stored block runs from a root down
      to the block, each entry the parent of the next, one entry longer than
      the ancestors; an unknown id has an empty path. */
  lemma HierarchyPathShape(p: PageData, k: BlockId)
    requires WellFormed(p)
    ensures k !in p.blocks ==> PathIds(p.blocks, k) == []
    ensures k in p.blocks ==>
      var path := PathIds(p.blocks, k);
      && |path| == |AncestorIds(p.blocks, k)| + 1
      && path[0] in p.rootIds && p.blocks[path[0]].IsRoot()
      && path[|path| - 1] == k
      && forall i :: 0 <= i < |path| - 1 ==> p.blocks[path[i + 1]].parentId == Some(path[i])
  {
    var m := p.blocks;
    var a := AncestorIds(m, k);
    if k in m {
      AncestorsUpToRoot(p, k);
      var path := PathIds(m, k);
      assert path == Reverse(a) + [k];
      if a == [] {
        assert path == [k];
        assert k in p.rootIds by {
          assert m[k].parentId.None?;
        }
      } else {
        assert path[0] == a[|a| - 1];
        ReversedLinks(m, k, a);
      }
    } else {
      assert StoredParent(m, k).None?;
    }
  }

  // ----- get_urls_with_context, get_page_references_with_context --------------------

  /** The triple reported for URL `u` of block `b`: the references of b's
      ancestors and those of b's descendants. */
  ghost function UrlInContext(m: BlockMap, b: Block, u: Url): (Url, seq<PageReference>, seq<PageReference>)
    requires Acyclic(m)
  {
    (u, RefsOf(m, AncestorIds(m, b.id)), RefsOf(m, Descendants(m, b.id)))
  }

  /** The triples for the URLs `us` of block `b`, in order. */
  ghost function UrlsInContext(m: BlockMap, b: Block, us: seq<Url>): (r: seq<(Url, seq<PageReference>, seq<PageReference>)>)
    requires Acyclic(m)
    ensures |r| == |us|
    ensures forall i :: 0 <= i < |us| ==> r[i] == UrlInContext(m, b, us[i])
  {
    if us == [] then [] else UrlsInContext(m, b, us[..|us| - 1]) + [UrlInContext(m, b, us[|us| - 1])]
  }

  /** What `get_urls_with_context` returns when the map yields `ids`. */
  ghost function UrlContexts(m: BlockMap, ids: seq<BlockId>): seq<(Url, seq<PageReference>, seq<PageReference>)>
    requires Acyclic(m)
    requires forall i :: 0 <= i < |ids| ==> ids[i] in m
  {
    if ids == [] then []
    else
      var k := ids[|ids| - 1];
      UrlContexts(m, ids[..|ids| - 1]) + UrlsInContext(m, m[k], m[k].urls)
  }

  /**
   * `get_urls_with_context`: for every block in map order and every URL of
   * that block, the URL with the references of the block's ancestors and
   * of its descendants.
   */
  method GetUrlsWithContext(p: PageData, order: seq<BlockId>)
    returns (r: seq<(Url, seq<PageReference>, seq<PageReference>)>)
    requires Acyclic(p.blocks)
    requires forall i :: 0 <= i < |order| ==> order[i] in p.blocks
    ensures r == UrlContexts(p.blocks, order)
  {
    var m := p.blocks;
    r := [];
    for i := 0 to |order|
      invariant r == UrlContexts(m, order[..i])
    {
      var triples := UrlsOfBlockWithContext(p, m[order[i]]);
      r := r + triples;
      assert order[..i + 1][..i] == order[..i];
    }
    assert order[..|order|] == order;
  }

  /** The inner loop of `get_urls_with_context`, over the URLs of one block. */
  method UrlsOfBlockWithContext(p: PageData, b: Block)
    returns (r: seq<(Url, seq<PageReference>, seq<PageReference>)>)
    requires Acyclic(p.blocks)
    ensures r == UrlsInContext(p.blocks, b, b.urls)
  {
    var m := p.blocks;
    r := [];
    for j := 0 to |b.urls|
      invariant r == UrlsInContext(m, b, b.urls[..j])
    {
      var ancestors := GetAncestors(p, b.id);
      var descendants := GetDescendants(p, b.id);
      RefsOfBlocksOf(m, AncestorIds(m, b.id));
      RefsOfBlocksOf(m, Descendants(m, b.id));
      var t := (b.urls[j], RefsOfBlocks(ancestors), RefsOfBlocks(descendants));
      assert t == UrlInContext(m, b, b.urls[j]);
      assert b.urls[..j + 1][..j] == b.urls[..j];
      r := r + [t];
    }
    assert b.urls[..|b.urls|] == b.urls;
  }

  /** `get_urls_with_context` yields one triple per URL of `all_urls`, in the
      same order. */
  lemma {:induction false} UrlContextsMatchAllUrls(m: BlockMap, ids: seq<BlockId>)
    requires Acyclic(m)
    requires forall i :: 0 <= i < |ids| ==> ids[i] in m
    ensures |UrlContexts(m, ids)| == |UrlsOf(m, ids)|
    ensures forall i :: 0 <= i < |UrlContexts(m, ids)| ==> UrlContexts(m, ids)[i].0 == UrlsOf(m, ids)[i]
  {
    if ids != [] {
      var init, k := ids[..|ids| - 1], ids[|ids| - 1];
      UrlContextsMatchAllUrls(m, init);
      assert ids == init + [k];
      UrlsOfAppend(m, init, k);
    }
  }

  /** Each triple of `get_urls_with_context` is the context of a block that
      holds its URL. */
  lemma {:induction false} UrlContextsOrigin(m: BlockMap, ids: seq<BlockId>, i: nat)
    requires Acyclic(m)
    requires forall j :: 0 <= j < |ids| ==> ids[j] in m
    requires i < |UrlContexts(m, ids)|
    ensures exists k :: (k in ids && UrlContexts(m, ids)[i].0 in m[k].urls &&
                         UrlContexts(m, ids)[i] == UrlInContext(m, m[k], UrlContexts(m, ids)[i].0))
  {
    var init, k := ids[..|ids| - 1], ids[|ids| - 1];
    var r0 := UrlContexts(m, init);
    var r := UrlContexts(m, ids);
    assert r == r0 + UrlsInContext(m, m[k], m[k].urls);
    if i < |r0| {
      UrlContextsOrigin(m, init, i);
      var k' :| k' in init && r0[i].0 in m[k'].urls && r0[i] == UrlInContext(m, m[k'], r0[i].0);
      assert r[i] == r0[i] && k' in ids;
    } else {
      assert r[i] == UrlInContext(m, m[k], m[k].urls[i - |r0|]);
      assert m[k].urls[i - |r0|] in m[k].urls;
    }
  }

  /** The triple reported for reference `x` of block `b`: the URLs of b's
      ancestors and those of b's descendants. */
  ghost function RefInContext(m: BlockMap, b: Block, x: PageReference): (PageReference, seq<Url>, seq<Url>)
    requires Acyclic(m)
  {
    (x, UrlsOf(m, AncestorIds(m, b.id)), UrlsOf(m, Descendants(m, b.id)))
  }

  /** The triples for the references `xs` of block `b`, in order. */
  ghost function RefsInContext(m: BlockMap, b: Block, xs: seq<PageReference>): (r: seq<(PageReference, seq<Url>, seq<Url>)>)
    requires Acyclic(m)
    ensures |r| == |xs|
    ensures forall i :: 0 <= i < |xs| ==> r[i] == RefInContext(m, b, xs[i])
  {
    if xs == [] then [] else RefsInContext(m, b, xs[..|xs| - 1]) + [RefInContext(m, b, xs[|xs| - 1])]
  }

  /** What `get_page_references_with_context` returns when the map yields `ids`. */
  ghost function RefContexts(m: BlockMap, ids: seq<BlockId>): seq<(PageReference, seq<Url>, seq<Url>)>
    requires Acyclic(m)
    requires forall i :: 0 <= i < |ids| ==> ids[i] in m
  {
    if ids == [] then []
    else
      var k := ids[|ids| - 1];
      RefContexts(m, ids[..|ids| - 1]) + RefsInContext(m, m[k], m[k].pageReferences)
  }

  /**
   * `get_page_references_with_context`: for every block in map order and
   * every reference of that block, the reference with the URLs of the
   * block's ancestors and of its descendants.
   */
  method GetPageReferencesWithContext(p: PageData, order: seq<BlockId>)
    returns (r: seq<(PageReference, seq<Url>, seq<Url>)>)
    requires Acyclic(p.blocks)
    requires forall i :: 0 <= i < |order| ==> order[i] in p.blocks
    ensures r == RefContexts(p.blocks, order)
  {
    var m := p.blocks;
    r := [];
    for i := 0 to |order|
      invariant r == RefContexts(m, order[..i])
    {
      var triples := RefsOfBlockWithContext(p, m[order[i]]);
      r := r + triples;
      assert order[..i + 1][..i] == order[..i];
    }
    assert order[..|order|] == order;
  }

  /** The inner loop of `get_page_references_with_context`, over the
      references of one block. */
  method RefsOfBlockWithContext(p: PageData, b: Block)
    returns (r: seq<(PageReference, seq<Url>, seq<Url>)>)
    requires Acyclic(p.blocks)
    ensures r == RefsInContext(p.blocks, b, b.pageReferences)
  {
    var m := p.blocks;
    r := [];
    for j := 0 to |b.pageReferences|
      invariant r == RefsInContext(m, b, b.pageReferences[..j])
    {
      var ancestors := GetAncestors(p, b.id);
      var descendants := GetDescendants(p, b.id);
      UrlsOfBlocksOf(m, AncestorIds(m, b.id));
      UrlsOfBlocksOf(m, Descendants(m, b.id));
      var t := (b.pageReferences[j], UrlsOfBlocks(ancestors), UrlsOfBlocks(descendants));
      assert t == RefInContext(m, b, b.pageReferences[j]);
      assert b.pageReferences[..j + 1][..j] == b.pageReferences[..j];
      r := r + [t];
    }
    assert b.pageReferences[..|b.pageReferences|] == b.pageReferences;
  }

  /** `get_page_references_with_context` yields one triple per reference of
      `all_page_references`, in the same order. */
  lemma {:induction false} RefContextsMatchAllReferences(m: BlockMap, ids: seq<BlockId>)
    requires Acyclic(m)
    requires forall i :: 0 <= i < |ids| ==> ids[i] in m
    ensures |RefContexts(m, ids)| == |RefsOf(m, ids)|
    ensures forall i :: 0 <= i < |RefContexts(m, ids)| ==> RefContexts(m, ids)[i].0 == RefsOf(m, ids)[i]
  {
    if ids != [] {
      var init, k := ids[..|ids| - 1], ids[|ids| - 1];
      RefContextsMatchAllReferences(m, init);
      assert ids == init + [k];
      RefsOfAppend(m, init, k);
    }
  }

  /** Each triple of `get_page_references_with_context` is the context of a
      block that holds its reference. */
  lemma {:induction false} RefContextsOrigin(m: BlockMap, ids: seq<BlockId>, i: nat)
    requires Acyclic(m)
    requires forall j :: 0 <= j < |ids| ==> ids[j] in m
    requires i < |RefContexts(m, ids)|
    ensures exists k :: (k in ids && RefContexts(m, ids)[i].0 in m[k].pageReferences &&
                         RefContexts(m, ids)[i] == RefInContext(m, m[k], RefContexts(m, ids)[i].0))
  {
    var init, k := ids[..|ids| - 1], ids[|ids| - 1];
    var r0 := RefContexts(m, init);
    var r := RefContexts(m, ids);
    assert r == r0 + RefsInContext(m, m[k], m[k].pageReferences);
    if i < |r0| {
      RefContextsOrigin(m, init, i);
      var k' :| k' in init && r0[i].0 in m[k'].pageReferences && r0[i] == RefInContext(m, m[k'], r0[i].0);
      assert r[i] == r0[i] && k' in ids;
    } else {
      assert r[i] == RefInContext(m, m[k], m[k].pageReferences[i - |r0|]);
      assert m[k].pageReferences[i - |r0|] in m[k].pageReferences;
    }
  }
}
