// The theory of a page's block arena (the `blocks` map of
// src/domain/aggregates.rs): parent chains, descendants, the tree shape
// the Page aggregate keeps, and the facts the aggregate's operations and
// queries rely on.
module BlockTree {
  import opened Base
  import opened ValueObjects
  import opened Entities

  /** The arena: every block of a page under its id. */
  type BlockMap = map<BlockId, Block>

  /** A termination witness: a depth per block, bounded by `bound`. */
  datatype Rank = Rank(depth: map<BlockId, nat>, bound: nat)

  /** The parent of `k` when it is declared and stored in the arena. */
  function StoredParent(m: BlockMap, k: BlockId): Option<BlockId> {
    if k in m && m[k].parentId.Some? && m[k].parentId.value in m then Some(m[k].parentId.value) else None
  }

  /** Stored parents are strictly shallower and stored children strictly
      deeper than the block that names them. */
  ghost predicate Ranked(m: BlockMap, r: Rank) {
    && (forall k {:trigger k in m} | k in m :: k in r.depth && r.depth[k] <= r.bound)
    && (forall k {:trigger StoredParent(m, k)} | k in m && StoredParent(m, k).Some? ::
          r.depth[StoredParent(m, k).value] < r.depth[k])
    && (forall k, c {:trigger c in m[k].childIds} | k in m && c in m[k].childIds && c in m ::
          r.depth[k] < r.depth[c])
  }

  /** Neither parent links nor child links run in a cycle. */
  ghost predicate Acyclic(m: BlockMap) {
    exists r :: Ranked(m, r)
  }

  ghost function RankOf(m: BlockMap): (r: Rank)
    requires Acyclic(m)
    ensures Ranked(m, r)
  {
    var r :| Ranked(m, r); r
  }

  ghost function Depth(m: BlockMap, k: BlockId): nat
    requires Acyclic(m)
  {
    if k in m then RankOf(m).depth[k] else 0
  }

  ghost function Height(m: BlockMap, k: BlockId): nat
    requires Acyclic(m)
  {
    if k in m then RankOf(m).bound - RankOf(m).depth[k] else 0
  }

  /** The ids `get_ancestors` visits: stored parents, nearest first. */
  ghost function AncestorIds(m: BlockMap, k: BlockId): (r: seq<BlockId>)
    requires Acyclic(m)
    ensures forall i :: 0 <= i < |r| ==> r[i] in m
    decreases Depth(m, k)
  {
    match StoredParent(m, k)
    case None => []
    case Some(p) => [p] + AncestorIds(m, p)
  }

  /** A block followed by its ancestors. */
  ghost function Chain(m: BlockMap, k: BlockId): seq<BlockId>
    requires Acyclic(m)
  {
    [k] + AncestorIds(m, k)
  }

  /** `k` lies in the subtree rooted at `a` (`a` itself included). */
  ghost predicate InSubtree(m: BlockMap, a: BlockId, k: BlockId)
    requires Acyclic(m)
  {
    k in m && a in Chain(m, k)
  }

  /** The stored blocks of a list of ids, in order. */
  function BlocksOf(m: BlockMap, ids: seq<BlockId>): (r: seq<Block>)
    requires forall i :: 0 <= i < |ids| ==> ids[i] in m
    ensures |r| == |ids| && forall i :: 0 <= i < |ids| ==> r[i] == m[ids[i]]
  {
    seq(|ids|, i requires 0 <= i < |ids| => m[ids[i]])
  }

  lemma BlocksOfAppend(m: BlockMap, ids: seq<BlockId>, k: BlockId)
    requires forall i :: 0 <= i < |ids| ==> ids[i] in m
    requires k in m
    ensures BlocksOf(m, ids + [k]) == BlocksOf(m, ids) + [m[k]]
  {
  }

  lemma BlocksOfConcat(m: BlockMap, a: seq<BlockId>, b: seq<BlockId>)
    requires forall i :: 0 <= i < |a| ==> a[i] in m
    requires forall i :: 0 <= i < |b| ==> b[i] in m
    ensures BlocksOf(m, a + b) == BlocksOf(m, a) + BlocksOf(m, b)
  {
  }

  // ----- Chains -----------------------------------------------------------

  /** Each chain entry's stored parent is the next entry; the last entry
      has no stored parent. */
  lemma {:induction false} ChainLinks(m: BlockMap, k: BlockId)
    requires Acyclic(m)
    ensures forall t :: 0 <= t < |Chain(m, k)| - 1 ==> StoredParent(m, Chain(m, k)[t]) == Some(Chain(m, k)[t + 1])
    ensures StoredParent(m, Chain(m, k)[|Chain(m, k)| - 1]).None?
    decreases Depth(m, k)
  {
    match StoredParent(m, k)
    case None =>
    case Some(p) =>
      ChainLinks(m, p);
      assert Chain(m, k) == [k] + Chain(m, p);
  }

  /** Every later chain entry is strictly shallower, under any ranking. */
  lemma {:induction false} ChainShallowerIn(m: BlockMap, r: Rank, k: BlockId)
    requires Acyclic(m) && Ranked(m, r)
    ensures forall t :: 0 < t < |Chain(m, k)| ==> r.depth[Chain(m, k)[t]] < r.depth[k]
    decreases Depth(m, k)
  {
    match StoredParent(m, k)
    case None =>
    case Some(p) =>
      ChainShallowerIn(m, r, p);
      assert Chain(m, k) == [k] + Chain(m, p);
  }

  /** Every later chain entry is strictly shallower than where the chain starts. */
  lemma ChainShallower(m: BlockMap, k: BlockId)
    requires Acyclic(m)
    ensures forall t :: 0 < t < |Chain(m, k)| ==> Depth(m, Chain(m, k)[t]) < Depth(m, k)
  {
    ChainShallowerIn(m, RankOf(m), k);
  }

  /** A block is never its own ancestor. */
  lemma {:induction false} ChainDistinct(m: BlockMap, k: BlockId)
    requires Acyclic(m)
    ensures NoDuplicates(Chain(m, k))
    decreases Depth(m, k)
  {
    match StoredParent(m, k)
    case None =>
    case Some(p) =>
      ChainDistinct(m, p);
      ChainShallower(m, k);
      assert Chain(m, k) == [k] + Chain(m, p);
  }

  /** The chain from any entry of a chain is the rest of that chain. */
  lemma {:induction false} ChainSuffix(m: BlockMap, k: BlockId, t: nat)
    requires Acyclic(m)
    requires t < |Chain(m, k)|
    ensures Chain(m, Chain(m, k)[t]) == Chain(m, k)[t..]
    decreases Depth(m, k)
  {
    if t > 0 {
      var p := StoredParent(m, k).value;
      assert Chain(m, k) == [k] + Chain(m, p);
      ChainSuffix(m, p, t - 1);
      assert Chain(m, k)[t..] == Chain(m, p)[t - 1..];
    }
  }

  /** Ancestry is transitive. */
  lemma ChainTransitive(m: BlockMap, a: BlockId, b: BlockId, k: BlockId)
    requires Acyclic(m)
    requires b in Chain(m, k) && a in Chain(m, b)
    ensures a in Chain(m, k)
  {
    var t :| 0 <= t < |Chain(m, k)| && Chain(m, k)[t] == b;
    ChainSuffix(m, k, t);
  }

  /** Two blocks of one chain that share a stored parent are the same block. */
  lemma ChainSameParent(m: BlockMap, k: BlockId, a: BlockId, b: BlockId)
    requires Acyclic(m)
    requires a in Chain(m, k) && b in Chain(m, k)
    requires StoredParent(m, a).Some? && StoredParent(m, a) == StoredParent(m, b)
    ensures a == b
  {
    var c := Chain(m, k);
    ChainLinks(m, k);
    ChainDistinct(m, k);
    var ta :| 0 <= ta < |c| && c[ta] == a;
    var tb :| 0 <= tb < |c| && c[tb] == b;
    assert ta < |c| - 1 && tb < |c| - 1;
    assert c[ta + 1] == c[tb + 1];
  }

  /** Every block of `small` is in `big` with the same declared parent. */
  ghost predicate LinksKept(small: BlockMap, big: BlockMap) {
    && (forall x {:trigger x in small} :: x in small ==> x in big)
    && (forall x {:trigger small[x].parentId} | x in small :: small[x].parentId == big[x].parentId)
  }

  /** A chain that stays inside a smaller arena with the same parent links
      is the same chain there. */
  lemma {:induction false} ChainFrame(big: BlockMap, small: BlockMap, k: BlockId)
    requires Acyclic(big) && Acyclic(small)
    requires LinksKept(small, big)
    requires forall x :: x in Chain(big, k) ==> x in small
    ensures Chain(small, k) == Chain(big, k)
    decreases Depth(big, k)
  {
    assert k in Chain(big, k);
    match StoredParent(big, k)
    case None =>
      assert StoredParent(small, k).None?;
    case Some(p) =>
      assert Chain(big, k) == [k] + Chain(big, p);
      assert StoredParent(small, k) == Some(p);
      ChainFrame(big, small, p);
      assert Chain(small, k) == [k] + Chain(small, p);
  }

  /** The same frame fact, for arenas with the same keys and parent links. */
  lemma ChainSameLinks(m1: BlockMap, m2: BlockMap, k: BlockId)
    requires Acyclic(m1) && Acyclic(m2)
    requires m1.Keys == m2.Keys
    requires LinksKept(m2, m1)
    ensures Chain(m2, k) == Chain(m1, k)
  {
    if k in m1 {
      ChainFrame(m1, m2, k);
    } else {
      assert StoredParent(m1, k).None? && StoredParent(m2, k).None?;
    }
  }

  // ----- The tree shape ---------------------------------------------------

  /**
   * The shape a page keeps, except at the blocks in `detached` (a removal
   * in progress): ids match keys; roots are stored parentless blocks,
   * listed once; every other block's parent is stored and lists it; every
   * listed child is stored and points back; child lists hold no repeats.
   */
  ghost predicate Structured(m: BlockMap, roots: seq<BlockId>, detached: set<BlockId>) {
    && IdsMatch(m)
    && RootsStored(m, roots)
    && OrphansListed(m, roots, detached)
    && ParentsListChildren(m, detached)
    && ChildrenPointBack(m)
    && ChildListsDistinct(m)
  }

  ghost predicate IdsMatch(m: BlockMap) {
    forall k | k in m :: m[k].id == k
  }

  /** Listed roots are stored parentless blocks, each listed once. */
  ghost predicate RootsStored(m: BlockMap, roots: seq<BlockId>) {
    (forall k {:trigger k in roots} | k in roots :: k in m && m[k].parentId.None?) && NoDuplicates(roots)
  }

  ghost predicate OrphansListed(m: BlockMap, roots: seq<BlockId>, detached: set<BlockId>) {
    forall k {:trigger m[k].parentId} | k in m && k !in detached && m[k].parentId.None? :: k in roots
  }

  ghost predicate ParentsListChildren(m: BlockMap, detached: set<BlockId>) {
    forall k {:trigger m[k].parentId} | k in m && k !in detached && m[k].parentId.Some? ::
      m[k].parentId.value in m && k in m[m[k].parentId.value].childIds
  }

  ghost predicate ChildrenPointBack(m: BlockMap) {
    forall k, c {:trigger c in m[k].childIds} | k in m && c in m[k].childIds ::
      c in m && m[c].parentId == Some(k)
  }

  ghost predicate ChildListsDistinct(m: BlockMap) {
    forall k | k in m :: NoDuplicates(m[k].childIds)
  }

  /** A well-formed page arena: acyclic and fully structured. */
  ghost predicate IsTree(m: BlockMap, roots: seq<BlockId>) {
    Acyclic(m) && Structured(m, roots, {})
  }

  /** In a tree every declared parent is stored. */
  lemma TreeParentStored(m: BlockMap, roots: seq<BlockId>, k: BlockId)
    requires IsTree(m, roots) && k in m
    ensures StoredParent(m, k) == m[k].parentId
  {
  }

  /** Every ancestor chain of a tree ends at a listed root. */
  lemma ChainEndsAtRoot(m: BlockMap, roots: seq<BlockId>, k: BlockId)
    requires IsTree(m, roots) && k in m
    ensures Chain(m, k)[|Chain(m, k)| - 1] in roots
  {
    ChainLinks(m, k);
    var last := Chain(m, k)[|Chain(m, k)| - 1];
    assert last in m;
  }

  // ----- Descendants --------------------------------------------------------

  /** The ids `get_descendants` visits: a pre-order walk that follows the
      child lists in order and skips children that are not stored. */
  ghost function Descendants(m: BlockMap, x: BlockId): (r: seq<BlockId>)
    requires Acyclic(m)
    ensures forall i :: 0 <= i < |r| ==> r[i] in m
    decreases Height(m, x), 1, 0
  {
    if x in m then DescendantsFrom(m, x, 0) else []
  }

  /** The walk below the children of `x` from position `i` on. */
  ghost function DescendantsFrom(m: BlockMap, x: BlockId, i: nat): (r: seq<BlockId>)
    requires Acyclic(m) && x in m && i <= |m[x].childIds|
    ensures forall j :: 0 <= j < |r| ==> r[j] in m
    decreases Height(m, x), 0, |m[x].childIds| - i
  {
    if i == |m[x].childIds| then []
    else
      var c := m[x].childIds[i];
      assert c in m[x].childIds;
      (if c in m then [c] + Descendants(m, c) else []) + DescendantsFrom(m, x, i + 1)
  }

  /** What the walk from position i collects: exactly the stored children
      from i on and what lies below them. */
  lemma {:induction false} DescendantsFromMembers(m: BlockMap, x: BlockId, i: nat, k: BlockId)
    requires Acyclic(m) && x in m && i <= |m[x].childIds|
    ensures k in DescendantsFrom(m, x, i) <==>
      exists j :: i <= j < |m[x].childIds| && m[x].childIds[j] in m &&
        (k == m[x].childIds[j] || k in Descendants(m, m[x].childIds[j]))
    decreases |m[x].childIds| - i
  {
    if i < |m[x].childIds| {
      DescendantsFromMembers(m, x, i + 1, k);
    }
  }

  /** A stored child of a block in a tree has that block as stored parent
      and lies deeper. */
  lemma ChildLink(m: BlockMap, roots: seq<BlockId>, x: BlockId, j: nat)
    requires IsTree(m, roots) && x in m && j < |m[x].childIds|
    ensures m[x].childIds[j] in m
    ensures StoredParent(m, m[x].childIds[j]) == Some(x)
    ensures Chain(m, m[x].childIds[j]) == [m[x].childIds[j]] + Chain(m, x)
    ensures Depth(m, m[x].childIds[j]) > Depth(m, x)
  {
    assert m[x].childIds[j] in m[x].childIds;
  }

  /** Everything the walk below `x` collects lies deeper than `x` and has
      `x` on its ancestor chain. */
  lemma {:induction false} DescendantIsBelow(m: BlockMap, roots: seq<BlockId>, x: BlockId, k: BlockId)
    requires IsTree(m, roots) && x in m
    requires k in Descendants(m, x)
    ensures InSubtree(m, x, k) && Depth(m, k) > Depth(m, x)
    decreases Height(m, x)
  {
    var cs := m[x].childIds;
    DescendantsFromMembers(m, x, 0, k);
    var j :| 0 <= j < |cs| && cs[j] in m && (k == cs[j] || k in Descendants(m, cs[j]));
    var c := cs[j];
    ChildLink(m, roots, x, j);
    if k != c {
      DescendantIsBelow(m, roots, c, k);
      ChainTransitive(m, x, c, k);
    }
  }

  /** Every stored block strictly below `x` is collected by the walk. */
  lemma {:induction false} BelowIsDescendant(m: BlockMap, roots: seq<BlockId>, x: BlockId, k: BlockId)
    requires IsTree(m, roots) && x in m
    requires k != x && InSubtree(m, x, k)
    ensures k in Descendants(m, x)
    decreases Height(m, x)
  {
    var cs := m[x].childIds;
    var ch := Chain(m, k);
    var t :| 0 <= t < |ch| && ch[t] == x;
    ChainLinks(m, k);
    var c := ch[t - 1];
    assert StoredParent(m, c) == Some(x);
    var j :| 0 <= j < |cs| && cs[j] == c;
    ChildLink(m, roots, x, j);
    if k != c {
      ChainSuffix(m, k, t - 1);
      BelowIsDescendant(m, roots, c, k);
    }
    DescendantsFromMembers(m, x, 0, k);
  }

  /** In a tree, the descendants of a stored block are exactly the other
      stored blocks whose ancestor chain passes through it. */
  lemma DescendantsAreSubtree(m: BlockMap, roots: seq<BlockId>, x: BlockId, k: BlockId)
    requires IsTree(m, roots) && x in m
    ensures k in Descendants(m, x) <==> k != x && InSubtree(m, x, k)
  {
    if k in Descendants(m, x) {
      DescendantIsBelow(m, roots, x, k);
    }
    if k != x && InSubtree(m, x, k) {
      BelowIsDescendant(m, roots, x, k);
    }
  }

  // ----- Removing a subtree -------------------------------------------------

  /** The arena after `x` is unlinked from its stored parent's child list. */
  function DetachFromParent(m: BlockMap, x: BlockId): (r: BlockMap)
    requires x in m
    ensures r.Keys == m.Keys
  {
    match m[x].parentId
    case None => m
    case Some(p) => if p in m then m[p := RemoveChild(m[p], x)] else m
  }

  /** The root list after `x` is unlinked from it (when it is a root). */
  function DetachFromRoots(m: BlockMap, roots: seq<BlockId>, x: BlockId): seq<BlockId>
    requires x in m
  {
    if m[x].parentId.None? then RemoveAll(roots, x) else roots
  }

  /** Unlinking a block keeps the ranking and the shape, with the block
      now detached. */
  lemma DetachKeepsShape(m: BlockMap, roots: seq<BlockId>, r: Rank, detached: set<BlockId>, x: BlockId)
    requires Ranked(m, r) && Structured(m, roots, detached)
    requires x in m && x !in detached
    ensures Ranked(DetachFromParent(m, x), r)
    ensures Structured(DetachFromParent(m, x), DetachFromRoots(m, roots, x), detached + {x})
    ensures LinksKept(DetachFromParent(m, x), m)
    ensures forall k {:trigger DetachFromParent(m, x)[k]} :: k in m && Some(k) != m[x].parentId ==>
      DetachFromParent(m, x)[k] == m[k]
  {
    if m[x].parentId.None? {
      DetachRootKeepsShape(m, roots, detached, x);
    } else {
      DetachChildKeepsShape(m, roots, r, detached, x);
    }
  }

  lemma DetachRootKeepsShape(m: BlockMap, roots: seq<BlockId>, detached: set<BlockId>, x: BlockId)
    requires Structured(m, roots, detached)
    requires x in m && m[x].parentId.None?
    ensures Structured(m, RemoveAll(roots, x), detached + {x})
  {
    var roots1 := RemoveAll(roots, x);
    assert RootsStored(m, roots1);
    assert OrphansListed(m, roots1, detached + {x});
  }

  lemma DetachChildKeepsShape(m: BlockMap, roots: seq<BlockId>, r: Rank, detached: set<BlockId>, x: BlockId)
    requires Ranked(m, r) && Structured(m, roots, detached)
    requires x in m && x !in detached && m[x].parentId.Some?
    ensures m[x].parentId.value in m
    ensures Ranked(m[m[x].parentId.value := RemoveChild(m[m[x].parentId.value], x)], r)
    ensures Structured(m[m[x].parentId.value := RemoveChild(m[m[x].parentId.value], x)], roots, detached + {x})
  {
    var p := m[x].parentId.value;
    var m1 := m[p := RemoveChild(m[p], x)];
    DetachChildRanked(m, r, p, x);
    DetachChildLinks(m, roots, detached, p, x);
    assert IdsMatch(m1) && RootsStored(m1, roots) && ChildListsDistinct(m1);
  }

  lemma DetachChildRanked(m: BlockMap, r: Rank, p: BlockId, x: BlockId)
    requires Ranked(m, r) && p in m
    ensures Ranked(m[p := RemoveChild(m[p], x)], r)
  {
    var m1 := m[p := RemoveChild(m[p], x)];
    assert forall k | k in m1 :: StoredParent(m1, k) == StoredParent(m, k);
    assert forall k, c | k in m1 && c in m1[k].childIds :: c in m[k].childIds;
  }

  lemma DetachChildLinks(m: BlockMap, roots: seq<BlockId>, detached: set<BlockId>, p: BlockId, x: BlockId)
    requires Structured(m, roots, detached) && p in m
    ensures OrphansListed(m[p := RemoveChild(m[p], x)], roots, detached + {x})
    ensures ParentsListChildren(m[p := RemoveChild(m[p], x)], detached + {x})
    ensures ChildrenPointBack(m[p := RemoveChild(m[p], x)])
  {
    var m1 := m[p := RemoveChild(m[p], x)];
    assert forall k | k in m1 :: m1[k].parentId == m[k].parentId;
    assert forall k, c | k in m1 && c in m1[k].childIds :: c in m[k].childIds;
  }

  /** The blocks of `detached` are stored and strictly shallower than `x`. */
  ghost predicate ShallowerThan(detached: set<BlockId>, m: BlockMap, r: Rank, x: BlockId) {
    && x in r.depth
    && forall d {:trigger d in detached} | d in detached :: d in m && d in r.depth && r.depth[d] < r.depth[x]
  }

  /** Some id of `done` lies on k's ancestor chain (k itself included). */
  ghost predicate UnderAny(m: BlockMap, done: seq<BlockId>, k: BlockId)
    requires Acyclic(m)
  {
    exists j :: 0 <= j < |done| && done[j] in Chain(m, k)
  }

  /** Being below one of `done` passes up an ancestor chain. */
  lemma UnderAnyUp(m: BlockMap, done: seq<BlockId>, y: BlockId, k: BlockId)
    requires Acyclic(m) && y in Chain(m, k)
    ensures UnderAny(m, done, y) ==> UnderAny(m, done, k)
  {
    if UnderAny(m, done, y) {
      var j :| 0 <= j < |done| && done[j] in Chain(m, y);
      ChainTransitive(m, done[j], y, k);
    }
  }

  lemma UnderAnyAppend(m: BlockMap, done: seq<BlockId>, c: BlockId, k: BlockId)
    requires Acyclic(m)
    ensures UnderAny(m, done + [c], k) <==> UnderAny(m, done, k) || c in Chain(m, k)
  {
    var d := done + [c];
    assert d[|done|] == c;
    assert forall j :: 0 <= j < |done| ==> d[j] == done[j];
  }

  lemma UnderAnyPrefix(m: BlockMap, done: seq<BlockId>, i: nat, k: BlockId)
    requires Acyclic(m) && i <= |done|
    ensures UnderAny(m, done[..i], k) ==> UnderAny(m, done, k)
  {
    if UnderAny(m, done[..i], k) {
      var j :| 0 <= j < i && done[..i][j] in Chain(m, k);
      assert done[j] in Chain(m, k);
    }
  }

  /**
   * `mid` is `m1` with the subtrees below `done` removed and nothing else
   * changed but child lists; then a block still in `mid` has the same
   * ancestor chain in both arenas.
   */
  lemma RemainingChain(m1: BlockMap, mid: BlockMap, done: seq<BlockId>, k: BlockId)
    requires Acyclic(m1) && Acyclic(mid)
    requires LinksKept(mid, m1)
    requires forall y {:trigger y in mid} {:trigger UnderAny(m1, done, y)} :: y in m1 ==> (y in mid <==> !UnderAny(m1, done, y))
    requires k in mid
    ensures Chain(mid, k) == Chain(m1, k)
  {
    forall y | y in Chain(m1, k) ensures y in mid {
      UnderAnyUp(m1, done, y, k);
      assert y in m1;
    }
    ChainFrame(m1, mid, k);
  }

  /** One loop step of the removal: the subtree of `c` goes too. */
  lemma RemovalStep(m1: BlockMap, mid: BlockMap, next: BlockMap, done: seq<BlockId>, c: BlockId)
    requires Acyclic(m1) && Acyclic(mid)
    requires LinksKept(mid, m1)
    requires forall y {:trigger y in mid} {:trigger UnderAny(m1, done, y)} :: y in m1 ==> (y in mid <==> !UnderAny(m1, done, y))
    requires c in mid
    requires forall y {:trigger y in next} {:trigger InSubtree(mid, c, y)} :: y in next <==> y in mid && !InSubtree(mid, c, y)
    ensures forall y {:trigger y in next} {:trigger UnderAny(m1, done + [c], y)} :: y in m1 ==> (y in next <==> !UnderAny(m1, done + [c], y))
  {
    forall y | y in m1 ensures y in next <==> !UnderAny(m1, done + [c], y) {
      UnderAnyAppend(m1, done, c, y);
      if y in mid {
        RemainingChain(m1, mid, done, y);
      }
    }
  }

  /** A block below a child of `x` is below `x`. */
  lemma UnderChildren(m1: BlockMap, x: BlockId, k: BlockId)
    requires Acyclic(m1) && x in m1
    requires forall j :: 0 <= j < |m1[x].childIds| ==> StoredParent(m1, m1[x].childIds[j]) == Some(x)
    ensures UnderAny(m1, m1[x].childIds, k) ==> x in Chain(m1, k)
  {
    var cs := m1[x].childIds;
    var ch := Chain(m1, k);
    if UnderAny(m1, cs, k) {
      ChainLinks(m1, k);
      var j :| 0 <= j < |cs| && cs[j] in ch;
      var t :| 0 <= t < |ch| && ch[t] == cs[j];
      assert t < |ch| - 1;
      assert ch[t + 1] == x;
    }
  }

  /** A block strictly below `x` is below one of the children `x` lists. */
  lemma BelowSomeChild(m1: BlockMap, roots1: seq<BlockId>, r: Rank, detached: set<BlockId>, x: BlockId, k: BlockId)
    requires Acyclic(m1) && Ranked(m1, r) && Structured(m1, roots1, detached + {x})
    requires x in m1 && ShallowerThan(detached, m1, r, x)
    requires k in m1 && k != x
    ensures x in Chain(m1, k) ==> UnderAny(m1, m1[x].childIds, k)
  {
    var cs := m1[x].childIds;
    var ch := Chain(m1, k);
    if x in ch {
      ChainLinks(m1, k);
      var t :| 0 <= t < |ch| && ch[t] == x;
      var c := ch[t - 1];
      assert StoredParent(m1, c) == Some(x);
      assert r.depth[x] < r.depth[c];
      assert c in cs;
      var j :| 0 <= j < |cs| && cs[j] == c;
    }
  }

  /** A block at most as deep as `x` is never below a child of `x`. */
  lemma ShallowNotUnder(m1: BlockMap, r: Rank, x: BlockId, k: BlockId)
    requires Acyclic(m1) && Ranked(m1, r)
    requires x in m1 && k in m1 && r.depth[k] <= r.depth[x]
    requires ChildrenPointBack(m1)
    ensures !UnderAny(m1, m1[x].childIds, k)
  {
    var cs := m1[x].childIds;
    var ch := Chain(m1, k);
    ChainShallowerIn(m1, r, k);
    assert forall j :: 0 <= j < |cs| ==> cs[j] in m1[x].childIds;
    assert forall t :: 0 <= t < |ch| ==> r.depth[ch[t]] <= r.depth[k];
    assert forall j :: 0 <= j < |cs| ==> r.depth[x] < r.depth[cs[j]];
  }

  /** Dropping a detached block that has no children and that no block
      lists restores the shape without it. */
  lemma DropDetachedLeaf(m: BlockMap, roots: seq<BlockId>, r: Rank, detached: set<BlockId>, x: BlockId)
    requires Ranked(m, r) && Structured(m, roots, detached + {x})
    requires x in m && m[x].childIds == [] && x !in roots
    requires ShallowerThan(detached, m, r, x)
    requires m[x].parentId.Some? && m[x].parentId.value in m ==> x !in m[m[x].parentId.value].childIds
    ensures Ranked(m - {x}, r) && Structured(m - {x}, roots, detached)
  {
    var m' := m - {x};
    forall k | k in m' ensures StoredParent(m', k).Some? ==> StoredParent(m', k) == StoredParent(m, k) {
    }
    forall k | k in m' && k !in detached && m'[k].parentId.Some?
      ensures m'[k].parentId.value in m' && k in m'[m'[k].parentId.value].childIds
    {
      assert m'[k].parentId.value != x by {
        assert k in m[m[k].parentId.value].childIds;
      }
    }
    forall k, c {:trigger c in m'[k].childIds} | k in m' && c in m'[k].childIds
      ensures c in m' && m'[c].parentId == Some(k)
    {
      assert c in m[k].childIds;
    }
  }

  /**
   * After the loop over x's children: what is left of the detached arena
   * `m1` is exactly what lay outside x's subtree in the arena `m0` before
   * the detach (x itself is still to go).
   */
  lemma RemovedExactly(m0: BlockMap, m1: BlockMap, roots1: seq<BlockId>, r: Rank, detached: set<BlockId>,
                       x: BlockId, rest: BlockMap)
    requires Ranked(m0, r) && Ranked(m1, r) && Structured(m1, roots1, detached + {x})
    requires x in m0 && m0.Keys == m1.Keys
    requires LinksKept(m1, m0)
    requires ShallowerThan(detached, m1, r, x)
    requires forall k {:trigger k in rest} {:trigger UnderAny(m1, m1[x].childIds, k)} | k in m1 ::
      (k in rest <==> !UnderAny(m1, m1[x].childIds, k))
    requires rest.Keys <= m1.Keys
    ensures forall k {:trigger k in rest} {:trigger InSubtree(m0, x, k)} :: k in rest && k != x <==> k in m0 && !InSubtree(m0, x, k)
  {
    assert Acyclic(m0) && Acyclic(m1);
    forall j | 0 <= j < |m1[x].childIds| ensures StoredParent(m1, m1[x].childIds[j]) == Some(x) {
      var c := m1[x].childIds[j];
      assert c in m1[x].childIds;
    }
    forall k | k in m0 ensures k in rest && k != x <==> !InSubtree(m0, x, k) {
      ChainSameLinks(m0, m1, k);
      UnderChildren(m1, x, k);
      if k != x {
        BelowSomeChild(m1, roots1, r, detached, x, k);
      } else {
        ShallowNotUnder(m1, r, x, x);
      }
    }
  }

  /**
   * The invariant of the loop over the children of `x` in `remove_block`:
   * `m1` is the arena once `x` is detached, the first `i` children have
   * been removed with their subtrees, and x's child list has lost them.
   */
  ghost predicate RemovalLoop(m1: BlockMap, x: BlockId, children: seq<BlockId>, i: nat,
                              detached: set<BlockId>, r: Rank, cur: BlockMap, roots: seq<BlockId>)
  {
    && i <= |children|
    && Ranked(m1, r) && Acyclic(m1) && ChildrenPointBack(m1)
    && x in m1 && m1[x].childIds == children
    && ShallowerThan(detached, m1, r, x)
    && Ranked(cur, r) && Structured(cur, roots, detached + {x})
    && x in cur && cur[x] == m1[x].(childIds := children[i..])
    && LinksKept(cur, m1)
    && (forall k {:trigger cur[k]} | k in cur && k != x :: cur[k] == m1[k])
    && (forall k {:trigger k in cur} {:trigger UnderAny(m1, children[..i], k)} | k in m1 ::
          (k in cur <==> !UnderAny(m1, children[..i], k)))
    && (forall d {:trigger d in detached} | d in detached :: d in cur)
  }

  /** Detaching `x` starts the loop. */
  lemma LoopInit(m0: BlockMap, roots0: seq<BlockId>, r: Rank, detached: set<BlockId>, x: BlockId,
                 m1: BlockMap, roots1: seq<BlockId>)
    requires Ranked(m0, r) && Structured(m0, roots0, detached)
    requires x in m0 && x !in detached
    requires ShallowerThan(detached, m0, r, x)
    requires m1 == DetachFromParent(m0, x) && roots1 == DetachFromRoots(m0, roots0, x)
    ensures RemovalLoop(m1, x, m0[x].childIds, 0, detached, r, m1, roots1)
  {
    DetachKeepsShape(m0, roots0, r, detached, x);
    assert Acyclic(m1);
    assert m1[x] == m0[x] by {
      assert StoredParent(m0, x) != Some(x);
    }
    var children := m0[x].childIds;
    assert children[0..] == children;
    assert forall k :: !UnderAny(m1, children[..0], k);
  }

  /** The next child is stored, below `x`, and a valid recursion target. */
  lemma LoopPre(m1: BlockMap, x: BlockId, children: seq<BlockId>, i: nat,
                detached: set<BlockId>, r: Rank, cur: BlockMap, roots: seq<BlockId>)
    requires RemovalLoop(m1, x, children, i, detached, r, cur, roots) && i < |children|
    ensures children[i] in cur && cur[children[i]].parentId == Some(x)
    ensures children[i] !in detached + {x}
    ensures ShallowerThan(detached + {x}, cur, r, children[i])
    ensures r.depth[x] < r.depth[children[i]] <= r.bound
  {
    var c := children[i];
    assert cur[x].childIds[0] == c;
    assert c in cur[x].childIds;
  }

  /** Removing the subtree of the next child keeps the loop invariant. */
  /**
   * What removing the subtree of `x` from (m0, roots0) leaves in (m, roots):
   * the same ranking and shape, exactly the blocks outside x's subtree,
   * each unchanged except x's parent, which no longer lists `x`, and the
   * root list without `x`.
   */
  ghost predicate SubtreeRemoved(m0: BlockMap, roots0: seq<BlockId>, x: BlockId, detached: set<BlockId>,
                                 r: Rank, m: BlockMap, roots: seq<BlockId>)
  {
    && x in m0 && Acyclic(m0)
    && Ranked(m, r) && Structured(m, roots, detached)
    && (forall k {:trigger k in m} {:trigger InSubtree(m0, x, k)} ::
          k in m <==> k in m0 && !InSubtree(m0, x, k))
    && (forall k {:trigger m[k]} | k in m && Some(k) != m0[x].parentId :: m[k] == m0[k])
    && (m0[x].parentId.Some? ==>
          var p := m0[x].parentId.value;
          p in m && m[p] == RemoveChild(m0[p], x))
    && roots == DetachFromRoots(m0, roots0, x)
  }

  /** One loop step keeps the roots and `x`, whose child list loses its
      first entry, and leaves parent links as they were. */
  lemma LoopStepHead(m1: BlockMap, x: BlockId, children: seq<BlockId>, i: nat, detached: set<BlockId>,
                     r: Rank, cur: BlockMap, roots: seq<BlockId>, next: BlockMap, nextRoots: seq<BlockId>)
    requires RemovalLoop(m1, x, children, i, detached, r, cur, roots) && i < |children|
    requires SubtreeRemoved(cur, roots, children[i], detached + {x}, r, next, nextRoots)
    ensures nextRoots == roots
    ensures x in next && next[x] == m1[x].(childIds := children[i + 1..])
    ensures LinksKept(next, m1)
    ensures forall k {:trigger next[k]} | k in next && k != x :: next[k] == m1[k]
  {
    LoopPre(m1, x, children, i, detached, r, cur, roots);
    assert Acyclic(cur);
    assert cur[x].childIds == children[i..];
    RemoveAllHead(children[i..]);
    assert children[i..][1..] == children[i + 1..];
    assert next[x] == m1[x].(childIds := children[i + 1..]);
    assert x in next by {
      ChainShallowerIn(cur, r, x);
      assert forall t :: 0 <= t < |Chain(cur, x)| ==> r.depth[Chain(cur, x)[t]] <= r.depth[x];
    }
    assert LinksKept(next, m1) by {
      assert forall k | k in next :: next[k].parentId == cur[k].parentId;
    }
  }

  lemma LoopStep(m1: BlockMap, x: BlockId, children: seq<BlockId>, i: nat, detached: set<BlockId>,
                 r: Rank, cur: BlockMap, roots: seq<BlockId>, next: BlockMap, nextRoots: seq<BlockId>)
    requires RemovalLoop(m1, x, children, i, detached, r, cur, roots) && i < |children|
    requires SubtreeRemoved(cur, roots, children[i], detached + {x}, r, next, nextRoots)
    ensures nextRoots == roots
    ensures RemovalLoop(m1, x, children, i + 1, detached, r, next, roots)
  {
    var c := children[i];
    LoopPre(m1, x, children, i, detached, r, cur, roots);
    LoopStepHead(m1, x, children, i, detached, r, cur, roots, next, nextRoots);
    RemovalStep(m1, cur, next, children[..i], c);
    assert children[..i + 1] == children[..i] + [c];
    forall d | d in detached ensures d in next {
      ShallowNotUnder(m1, r, x, d);
      UnderAnyPrefix(m1, children, i + 1, d);
    }
  }

  /** After the loop, what is left besides `x` is exactly what lay outside
      x's subtree before the removal began. */
  lemma LoopDoneKeys(m0: BlockMap, roots0: seq<BlockId>, m1: BlockMap, roots1: seq<BlockId>, x: BlockId,
                     children: seq<BlockId>, detached: set<BlockId>, r: Rank, cur: BlockMap)
    requires Ranked(m0, r) && Structured(m0, roots0, detached)
    requires x in m0 && x !in detached
    requires ShallowerThan(detached, m0, r, x)
    requires m1 == DetachFromParent(m0, x) && roots1 == DetachFromRoots(m0, roots0, x)
    requires RemovalLoop(m1, x, children, |children|, detached, r, cur, roots1)
    ensures forall k {:trigger k in cur} {:trigger InSubtree(m0, x, k)} ::
      k in cur && k != x <==> k in m0 && !InSubtree(m0, x, k)
  {
    DetachKeepsShape(m0, roots0, r, detached, x);
    assert Acyclic(m0);
    assert Structured(m1, roots1, detached + {x});
    assert children[..|children|] == children;
    RemovedExactly(m0, m1, roots1, r, detached, x, cur);
  }

  /** After the loop, dropping `x` leaves exactly what lay outside its
      subtree, unchanged except for the parent's child list. */
  /** x's parent lies outside x's subtree and loses x from its child list. */
  lemma DetachedParent(m0: BlockMap, roots0: seq<BlockId>, r: Rank, detached: set<BlockId>, x: BlockId)
    requires Ranked(m0, r) && Structured(m0, roots0, detached)
    requires x in m0 && x !in detached && m0[x].parentId.Some?
    ensures var p := m0[x].parentId.value;
      && p in m0 && !InSubtree(m0, x, p) && p != x
      && p in DetachFromParent(m0, x) && DetachFromParent(m0, x)[p] == RemoveChild(m0[p], x)
      && x !in DetachFromParent(m0, x)[p].childIds
  {
    var p := m0[x].parentId.value;
    assert Acyclic(m0);
    assert p in m0 && StoredParent(m0, x) == Some(p);
    assert !InSubtree(m0, x, p) by {
      ChainShallowerIn(m0, r, p);
      assert forall t :: 0 <= t < |Chain(m0, p)| ==> r.depth[Chain(m0, p)[t]] <= r.depth[p];
    }
    DetachKeepsShape(m0, roots0, r, detached, x);
  }

  lemma LoopDone(m0: BlockMap, roots0: seq<BlockId>, m1: BlockMap, roots1: seq<BlockId>, x: BlockId,
                 children: seq<BlockId>, detached: set<BlockId>, r: Rank, cur: BlockMap, rest: BlockMap)
    requires Ranked(m0, r) && Structured(m0, roots0, detached)
    requires x in m0 && x !in detached
    requires ShallowerThan(detached, m0, r, x)
    requires m1 == DetachFromParent(m0, x) && roots1 == DetachFromRoots(m0, roots0, x)
    requires RemovalLoop(m1, x, children, |children|, detached, r, cur, roots1)
    requires rest == cur - {x}
    ensures SubtreeRemoved(m0, roots0, x, detached, r, rest, roots1)
  {
    assert Acyclic(m0);
    assert forall k {:trigger k in rest} {:trigger InSubtree(m0, x, k)} ::
      k in rest <==> k in m0 && !InSubtree(m0, x, k)
    by {
      LoopDoneKeys(m0, roots0, m1, roots1, x, children, detached, r, cur);
    }
    assert forall k {:trigger rest[k]} | k in rest && Some(k) != m0[x].parentId :: rest[k] == m0[k] by {
      DetachKeepsShape(m0, roots0, r, detached, x);
    }
    assert m0[x].parentId.Some? ==>
      var p := m0[x].parentId.value;
      p in rest && rest[p] == RemoveChild(m0[p], x)
    by {
      if m0[x].parentId.Some? {
        var p := m0[x].parentId.value;
        DetachedParent(m0, roots0, r, detached, x);
        LoopDoneKeys(m0, roots0, m1, roots1, x, children, detached, r, cur);
        assert p in m0 && !InSubtree(m0, x, p);
        assert cur[p] == m1[p];
      }
    }
    assert Ranked(rest, r) && Structured(rest, roots1, detached) by {
      assert x !in roots1 by {
        if m0[x].parentId.Some? {
          assert x !in roots0;
        }
      }
      assert cur[x].childIds == [];
      DropDetachedLeaf(cur, roots1, r, detached, x);
    }
  }

  // ----- Adding a block -------------------------------------------------------

  /** The arena once a new block is stored and linked to its parent. */
  function AddedBlocks(m: BlockMap, b: Block): BlockMap
    requires b.parentId.Some? ==> b.parentId.value in m
  {
    match b.parentId
    case None => m[b.id := b]
    case Some(p) => m[b.id := b][p := AddChild(m[p], b.id)]
  }

  /** The ranking extended to a new block one below its parent. */
  function AddedRank(r: Rank, b: Block): Rank
    requires b.parentId.Some? ==> b.parentId.value in r.depth
  {
    var d := match b.parentId case None => 0 case Some(p) => r.depth[p] + 1;
    Rank(r.depth[b.id := d], if d > r.bound then d else r.bound)
  }

  /** What adding changes: one new parentless-of-children block, and at most
      the parent's child list, which gains the new id. */
  lemma AddedFacts(m: BlockMap, b: Block)
    requires b.parentId.Some? ==> b.parentId.value in m
    requires b.id !in m
    ensures AddedBlocks(m, b).Keys == m.Keys + {b.id}
    ensures AddedBlocks(m, b)[b.id] == b
    ensures forall k | k in m :: AddedBlocks(m, b)[k].id == m[k].id
    ensures forall k | k in m :: AddedBlocks(m, b)[k].parentId == m[k].parentId
    ensures forall k {:trigger AddedBlocks(m, b)[k]} | k in m && Some(k) != b.parentId :: AddedBlocks(m, b)[k].childIds == m[k].childIds
    ensures b.parentId.Some? ==>
      AddedBlocks(m, b)[b.parentId.value].childIds == AppendIfAbsent(m[b.parentId.value].childIds, b.id)
  {
  }

  /** A fresh block without children keeps the arena ranked. */
  lemma AddKeepsRanked(m: BlockMap, r: Rank, b: Block)
    requires Ranked(m, r) && ParentsListChildren(m, {}) && ChildrenPointBack(m)
    requires b.parentId.Some? ==> b.parentId.value in m
    requires b.id !in m && b.childIds == []
    ensures Ranked(AddedBlocks(m, b), AddedRank(r, b))
  {
    var m' := AddedBlocks(m, b);
    var r' := AddedRank(r, b);
    assert forall k | k in m :: b.id !in m[k].childIds;
    assert forall k | k in m :: m[k].parentId != Some(b.id);
    assert forall k | k in m' :: k in r'.depth && r'.depth[k] <= r'.bound by {
      AddedFacts(m, b);
      AddedRankFacts(m, r, b);
    }
    assert forall k | k in m' && StoredParent(m', k).Some? :: r'.depth[StoredParent(m', k).value] < r'.depth[k] by {
      AddedFacts(m, b);
      AddedRankFacts(m, r, b);
      AddRankedParents(m, m', r, r', b);
    }
    assert forall k, c {:trigger c in m'[k].childIds} | k in m' && c in m'[k].childIds && c in m' :: r'.depth[k] < r'.depth[c] by {
      AddedFacts(m, b);
      AddedRankFacts(m, r, b);
      AddRankedChildren(m, m', r, r', b);
    }
  }

  lemma AddedRankFacts(m: BlockMap, r: Rank, b: Block)
    requires Ranked(m, r)
    requires b.parentId.Some? ==> b.parentId.value in m
    requires b.id !in m
    ensures forall k | k in m :: k in AddedRank(r, b).depth && AddedRank(r, b).depth[k] == r.depth[k]
    ensures b.id in AddedRank(r, b).depth
    ensures forall k | k in m + map[b.id := b] :: AddedRank(r, b).depth[k] <= AddedRank(r, b).bound
    ensures b.parentId.Some? ==> AddedRank(r, b).depth[b.id] == r.depth[b.parentId.value] + 1
  {
  }

  lemma AddRankedParents(m: BlockMap, m': BlockMap, r: Rank, r': Rank, b: Block)
    requires Ranked(m, r) && b.id !in m
    requires m'.Keys == m.Keys + {b.id} && m'[b.id] == b
    requires forall k | k in m :: m'[k].parentId == m[k].parentId
    requires forall k | k in m :: m[k].parentId != Some(b.id)
    requires forall k | k in m :: k in r'.depth && r'.depth[k] == r.depth[k]
    requires b.id in r'.depth && forall k | k in m' :: r'.depth[k] <= r'.bound
    requires b.parentId.Some? ==> b.parentId.value in m && r'.depth[b.id] == r.depth[b.parentId.value] + 1
    ensures forall k | k in m' && StoredParent(m', k).Some? :: r'.depth[StoredParent(m', k).value] < r'.depth[k]
  {
    forall k | k in m' && StoredParent(m', k).Some?
      ensures r'.depth[StoredParent(m', k).value] < r'.depth[k]
    {
      if k != b.id {
        assert StoredParent(m', k) == StoredParent(m, k);
      }
    }
  }

  lemma AddRankedChildren(m: BlockMap, m': BlockMap, r: Rank, r': Rank, b: Block)
    requires Ranked(m, r) && b.id !in m && b.childIds == []
    requires forall k | k in m :: b.id !in m[k].childIds
    requires m'.Keys == m.Keys + {b.id} && m'[b.id] == b
    requires forall k {:trigger m'[k]} | k in m && Some(k) != b.parentId :: m'[k].childIds == m[k].childIds
    requires forall k | k in m :: k in r'.depth && r'.depth[k] == r.depth[k]
    requires b.id in r'.depth
    requires b.parentId.Some? ==> b.parentId.value in m && r'.depth[b.id] == r.depth[b.parentId.value] + 1
    requires b.parentId.Some? ==>
      m'[b.parentId.value].childIds == AppendIfAbsent(m[b.parentId.value].childIds, b.id)
    ensures forall k, c {:trigger c in m'[k].childIds} | k in m' && c in m'[k].childIds && c in m' :: r'.depth[k] < r'.depth[c]
  {
    forall k, c | k in m' && c in m'[k].childIds && c in m'
      ensures r'.depth[k] < r'.depth[c]
    {
      if k != b.id && c != b.id {
        assert c in m[k].childIds;
      }
    }
  }

  /** A fresh root without children keeps the shape. */
  lemma AddRootKeepsShape(m: BlockMap, roots: seq<BlockId>, b: Block)
    requires Structured(m, roots, {})
    requires b.parentId.None? && b.id !in m && b.childIds == []
    ensures Structured(AddedBlocks(m, b), AppendIfAbsent(roots, b.id), {})
  {
    var m' := AddedBlocks(m, b);
    AddedFacts(m, b);
    assert forall k | k in m :: b.id !in m[k].childIds;
    assert IdsMatch(m');
    assert RootsStored(m', AppendIfAbsent(roots, b.id));
    assert OrphansListed(m', AppendIfAbsent(roots, b.id), {});
    assert ParentsListChildren(m', {});
    assert ChildrenPointBack(m');
    assert ChildListsDistinct(m');
  }

  /** A fresh child without children keeps the shape. */
  lemma AddChildKeepsShape(m: BlockMap, roots: seq<BlockId>, b: Block)
    requires Structured(m, roots, {})
    requires b.parentId.Some? && b.parentId.value in m
    requires b.id !in m && b.childIds == []
    ensures Structured(AddedBlocks(m, b), roots, {})
  {
    var m' := AddedBlocks(m, b);
    AddedFacts(m, b);
    assert forall k | k in m :: b.id !in m[k].childIds;
    assert IdsMatch(m');
    assert RootsStored(m', roots);
    assert OrphansListed(m', roots, {});
    AddChildParents(m, m', b);
    AddChildPointsBack(m, m', b);
  }

  lemma AddChildParents(m: BlockMap, m': BlockMap, b: Block)
    requires ParentsListChildren(m, {})
    requires b.parentId.Some? && b.parentId.value in m && b.id !in m
    requires m'.Keys == m.Keys + {b.id} && m'[b.id] == b
    requires forall k | k in m :: m'[k].parentId == m[k].parentId
    requires forall k {:trigger m'[k]} | k in m && Some(k) != b.parentId :: m'[k].childIds == m[k].childIds
    requires m'[b.parentId.value].childIds == AppendIfAbsent(m[b.parentId.value].childIds, b.id)
    ensures ParentsListChildren(m', {})
  {
    forall k | k in m' && m'[k].parentId.Some?
      ensures m'[k].parentId.value in m' && k in m'[m'[k].parentId.value].childIds
    {
      if k != b.id {
        var q := m[k].parentId.value;
        assert k in m[q].childIds;
      }
    }
  }

  lemma AddChildPointsBack(m: BlockMap, m': BlockMap, b: Block)
    requires ChildrenPointBack(m) && ChildListsDistinct(m)
    requires b.parentId.Some? && b.parentId.value in m && b.id !in m && b.childIds == []
    requires m'.Keys == m.Keys + {b.id} && m'[b.id] == b
    requires forall k | k in m :: m'[k].parentId == m[k].parentId
    requires forall k {:trigger m'[k]} | k in m && Some(k) != b.parentId :: m'[k].childIds == m[k].childIds
    requires m'[b.parentId.value].childIds == AppendIfAbsent(m[b.parentId.value].childIds, b.id)
    ensures ChildrenPointBack(m') && ChildListsDistinct(m')
  {
    forall k, c {:trigger c in m'[k].childIds} | k in m' && c in m'[k].childIds
      ensures c in m' && m'[c].parentId == Some(k)
    {
      if c != b.id {
        assert c in m[k].childIds;
      }
    }
  }
}
