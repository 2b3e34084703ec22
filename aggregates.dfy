// The Page aggregate (src/domain/aggregates.rs): a block arena plus the
// ordered list of root ids, changed in place by AddBlock and RemoveBlock.
// The read-only traversals are in the PageQueries module.
module Aggregates {
  import opened Base
  import opened ValueObjects
  import opened Entities
  import opened BlockTree

  /** A page as a value: what the repository stores and hands out. */
  datatype PageData = PageData(id: PageId, title: string, blocks: BlockMap, rootIds: seq<BlockId>)

  /** The shape every page built through the aggregate has. */
  ghost predicate WellFormed(p: PageData) {
    IsTree(p.blocks, p.rootIds)
  }

  class Page {
    var id: PageId
    var title: string
    var blocks: BlockMap
    var rootIds: seq<BlockId>
    /** A depth per block that proves the arena acyclic. */
    ghost var rank: Rank

    ghost predicate Valid()
      reads this
    {
      Ranked(blocks, rank) && Structured(blocks, rootIds, {})
    }

    function Data(): PageData
      reads this
    {
      PageData(id, title, blocks, rootIds)
    }

    lemma ValidIsWellFormed()
      requires Valid()
      ensures Acyclic(blocks) && WellFormed(Data())
    {
    }

    constructor (id: PageId, title: string)
      ensures Valid()
      ensures Data() == PageData(id, title, map[], [])
    {
      this.id := id;
      this.title := title;
      blocks := map[];
      rootIds := [];
      rank := Rank(map[], 0);
    }

    method SetTitle(title: string)
      requires Valid()
      modifies this
      ensures Valid() && rank == old(rank)
      ensures Data() == old(Data()).(title := title)
    {
      this.title := title;
    }

    /**
     * `add_block`. A declared parent must be stored. The block must be new
     * to the page and must not list children yet; see the finding on
     * AddBlockAsWritten for what happens to the tree otherwise. A parented
     * block is appended once to its parent's child list, a root block to
     * the root list.
     */
    method AddBlock(b: Block) returns (res: Result<(), DomainError>)
      requires Valid()
      modifies this
      ensures Valid()
      ensures id == old(id) && title == old(title)
      ensures b.parentId.Some? && b.parentId.value !in old(blocks) ==>
        res == Err(InvalidOperation("Parent block " + b.parentId.value.value + " does not exist"))
      ensures res.Ok? <==>
        (b.parentId.Some? ==> b.parentId.value in old(blocks)) && b.id !in old(blocks) && b.childIds == []
      ensures res.Err? ==> res.error.InvalidOperation? && blocks == old(blocks) && rootIds == old(rootIds)
      ensures res.Ok? ==> blocks == AddedBlocks(old(blocks), b)
      ensures res.Ok? ==> rootIds == if b.parentId.None? then old(rootIds) + [b.id] else old(rootIds)
    {
      match b.parentId {
        case Some(pid) =>
          if pid !in blocks {
            return Err(InvalidOperation("Parent block " + pid.value + " does not exist"));
          }
        case None =>
      }
      if b.id in blocks {
        return Err(InvalidOperation("Block " + b.id.value + " already exists"));
      }
      if b.childIds != [] {
        return Err(InvalidOperation("Block " + b.id.value + " already lists children"));
      }
      ghost var m0 := blocks;
      blocks := blocks[b.id := b];
      match b.parentId {
        case Some(pid) =>
          blocks := blocks[pid := AddChild(blocks[pid], b.id)];
        case None =>
          rootIds := AppendIfAbsent(rootIds, b.id);
      }
      assert blocks == AddedBlocks(m0, b);
      AddKeepsRanked(m0, rank, b);
      if b.parentId.None? {
        AddRootKeepsShape(m0, old(rootIds), b);
      } else {
        AddChildKeepsShape(m0, rootIds, b);
      }
      rank := AddedRank(rank, b);
      return Ok(());
    }

    /**
     * `remove_block`. An unknown id is reported as not found and changes
     * nothing. Otherwise the block leaves its parent's child list (or the
     * root list), its children are removed recursively, and then the block
     * itself: exactly the block and its descendants disappear.
     */
    method RemoveBlock(x: BlockId) returns (res: Result<(), DomainError>)
      requires Valid()
      modifies this
      ensures Valid() && rank == old(rank)
      ensures id == old(id) && title == old(title)
      ensures x !in old(blocks) ==> res == Err(NotFound("Block " + x.value + " not found")) && Data() == old(Data())
      ensures x in old(blocks) ==> res == Ok(())
      ensures forall k {:trigger k in blocks} {:trigger InSubtree(old(blocks), x, k)} ::
        k in blocks <==> k in old(blocks) && !InSubtree(old(blocks), x, k)
      ensures forall k :: k in blocks <==> k in old(blocks) && k != x && k !in Descendants(old(blocks), x)
      ensures x in old(blocks) ==>
        forall k {:trigger blocks[k]} | k in blocks && Some(k) != old(blocks)[x].parentId :: blocks[k] == old(blocks)[k]
      ensures x in old(blocks) && old(blocks)[x].parentId.Some? ==>
        var p := old(blocks)[x].parentId.value;
        p in blocks && blocks[p] == RemoveChild(old(blocks)[p], x)
      ensures x in old(blocks) ==> rootIds == DetachFromRoots(old(blocks), old(rootIds), x)
    {
      if x !in blocks {
        return Err(NotFound("Block " + x.value + " not found"));
      }
      RemoveSubtree(x, {});
      forall k ensures k in old(blocks) && !InSubtree(old(blocks), x, k) <==>
        k in old(blocks) && k != x && k !in Descendants(old(blocks), x)
      {
        if k in old(blocks) {
          DescendantsAreSubtree(old(blocks), old(rootIds), x, k);
        }
      }
      return Ok(());
    }

    /**
     * The recursion of `remove_block` below the public check, for a stored
     * block `x`. The blocks of `detached` are the ancestors whose removal
     * is in progress: unlinked from their own parents, still stored, and
     * strictly shallower than `x`.
     */
    method RemoveSubtree(x: BlockId, ghost detached: set<BlockId>)
      requires Ranked(blocks, rank) && Structured(blocks, rootIds, detached)
      requires x in blocks && x !in detached
      requires x in rank.depth && ShallowerThan(detached, blocks, rank, x)
      modifies this
      decreases rank.bound - rank.depth[x], 1
      ensures rank == old(rank) && id == old(id) && title == old(title)
      ensures SubtreeRemoved(old(blocks), old(rootIds), x, detached, rank, blocks, rootIds)
    {
      ghost var m0 := blocks;
      ghost var roots0 := rootIds;
      var children := blocks[x].childIds;
      match blocks[x].parentId {
        case Some(p) =>
          if p in blocks {
            blocks := blocks[p := RemoveChild(blocks[p], x)];
          }
        case None =>
          rootIds := RemoveAll(rootIds, x);
      }
      ghost var m1 := blocks;
      ghost var roots1 := rootIds;
      LoopInit(m0, roots0, rank, detached, x, m1, roots1);
      RemoveChildren(x, children, detached, m1);
      LoopDone(m0, roots0, m1, roots1, x, children, detached, rank, blocks, blocks - {x});
      blocks := blocks - {x};
    }

    /**
     * The loop of `remove_block` over a snapshot of x's child list: each
     * child is removed with its subtree, which also takes it off x's list.
     */
    method RemoveChildren(x: BlockId, children: seq<BlockId>, ghost detached: set<BlockId>, ghost m1: BlockMap)
      requires RemovalLoop(m1, x, children, 0, detached, rank, blocks, rootIds)
      modifies this
      decreases rank.bound - rank.depth[x], 0
      ensures rank == old(rank) && id == old(id) && title == old(title) && rootIds == old(rootIds)
      ensures RemovalLoop(m1, x, children, |children|, detached, rank, blocks, rootIds)
    {
      for i := 0 to |children|
        invariant rank == old(rank) && id == old(id) && title == old(title) && rootIds == old(rootIds)
        invariant RemovalLoop(m1, x, children, i, detached, rank, blocks, rootIds)
      {
        LoopPre(m1, x, children, i, detached, rank, blocks, rootIds);
        ghost var cur := blocks;
        ghost var roots := rootIds;
        RemoveSubtree(children[i], detached + {x});
        LoopStep(m1, x, children, i, detached, rank, cur, roots, blocks, rootIds);
      }
    }
  }

  // ----- add_block as written ---------------------------------------------------

  /**
   * `add_block` exactly as the source writes it, on a page value: only a
   * missing declared parent is refused; the block then overwrites any block
   * stored under its id, and is linked to its parent or to the root list.
   */
  function AddBlockAsWritten(p: PageData, b: Block): (r: Result<PageData, DomainError>)
    ensures b.parentId.Some? && b.parentId.value !in p.blocks <==> r.Err?
    ensures r.Ok? ==> r.value.blocks.Keys == p.blocks.Keys + {b.id}
  {
    match b.parentId
    case Some(pid) =>
      if pid !in p.blocks then Err(InvalidOperation("Parent block " + pid.value + " does not exist"))
      else
        var m := p.blocks[b.id := b];
        Ok(p.(blocks := m[pid := AddChild(m[pid], b.id)]))
    case None =>
      Ok(p.(blocks := p.blocks[b.id := b], rootIds := AppendIfAbsent(p.rootIds, b.id)))
  }

  /** Two blocks that are each other's stored parent admit no ranking. */
  lemma TwoCycleNotAcyclic(m: BlockMap, a: BlockId, c: BlockId)
    requires StoredParent(m, a) == Some(c) && StoredParent(m, c) == Some(a)
    ensures !Acyclic(m)
  {
    forall r: Rank ensures !Ranked(m, r) {
      if a in m && c in m && a in r.depth && c in r.depth {
        assert !(r.depth[c] < r.depth[a] && r.depth[a] < r.depth[c]);
      }
    }
  }

  /** A root "r" with one child "c": a well-formed page. */
  function ExamplePage(): (p: PageData)
    ensures WellFormed(p)
  {
    var r, c := BlockId("r"), BlockId("c");
    var m := map[r := Block(r, BlockContent("root"), RootLevel, None, [c], [], []),
                 c := Block(c, BlockContent("child"), IndentLevel(1), Some(r), [], [], [])];
    assert Ranked(m, Rank(map[r := 0, c := 1], 1));
    PageData(PageId("p"), "Example", m, [r])
  }

  /**
   * Re-adding the root "r" of ExamplePage as a child of its own child "c"
   * is accepted by `add_block` as written, and leaves "r" and "c" each the
   * parent of the other: a page on which `get_ancestors` never returns.
   */
  lemma AddBlockAsWrittenMakesCycle()
    ensures var p := ExamplePage();
      var again := NewChild(BlockId("r"), BlockContent("again"), BlockId("c"), IndentLevel(2));
      var res := AddBlockAsWritten(p, again);
      && res.Ok?
      && StoredParent(res.value.blocks, BlockId("r")) == Some(BlockId("c"))
      && StoredParent(res.value.blocks, BlockId("c")) == Some(BlockId("r"))
      && !Acyclic(res.value.blocks)
  {
    var p := ExamplePage();
    var again := NewChild(BlockId("r"), BlockContent("again"), BlockId("c"), IndentLevel(2));
    var m := AddBlockAsWritten(p, again).value.blocks;
    assert StoredParent(m, BlockId("r")) == Some(BlockId("c"));
    assert StoredParent(m, BlockId("c")) == Some(BlockId("r"));
    TwoCycleNotAcyclic(m, BlockId("r"), BlockId("c"));
  }
}
