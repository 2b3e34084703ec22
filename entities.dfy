// The Block entity (one outline bullet) and the TextChunk entity
// (src/domain/entities.rs). A Block is owned by value by its page and
// cloned when handed out, so each `&mut self` operation is a function
// from the old block to the updated one.
module Entities {
  import opened Base
  import opened ValueObjects

  /** No element occurs twice. */
  predicate NoDuplicates<T(==)>(s: seq<T>) {
    forall i, j :: 0 <= i < j < |s| ==> s[i] != s[j]
  }

  /** `if !v.contains(&x) { v.push(x) }`. */
  function AppendIfAbsent<T(==)>(s: seq<T>, x: T): (r: seq<T>)
    ensures x in r
    ensures NoDuplicates(s) ==> NoDuplicates(r)
    ensures x in s ==> r == s
    ensures x !in s ==> |r| == |s| + 1 && r[..|s|] == s && r[|s|] == x
  {
    if x in s then s else s + [x]
  }

  /** Each element of `xs` in turn, appended if absent. */
  function AppendEach<T(==)>(s: seq<T>, xs: seq<T>): (r: seq<T>)
    ensures NoDuplicates(s) ==> NoDuplicates(r)
    ensures forall i | 0 <= i < |r| :: r[i] in s || r[i] in xs
    ensures forall i | 0 <= i < |s| :: s[i] in r
    ensures forall i | 0 <= i < |xs| :: xs[i] in r
    ensures |r| <= |s| + |xs|
  {
    if xs == [] then s else AppendIfAbsent(AppendEach(s, xs[..|xs| - 1]), xs[|xs| - 1])
  }

  /** Appending an element twice is the same as appending it once. */
  lemma AppendIfAbsentIdempotent<T>(s: seq<T>, x: T)
    ensures AppendIfAbsent(AppendIfAbsent(s, x), x) == AppendIfAbsent(s, x)
  {
  }

  /** `v.retain(|y| y != x)`. */
  function RemoveAll<T(==)>(s: seq<T>, x: T): (r: seq<T>)
    ensures x !in r
    ensures forall y :: y in s ==> (y in r <==> y != x)
    ensures forall y :: y in r ==> y in s
    ensures NoDuplicates(s) ==> NoDuplicates(r)
  {
    if s == [] then []
    else
      var rest := RemoveAll(s[1..], x);
      assert NoDuplicates(s) ==> NoDuplicates(s[1..]) && s[0] !in s[1..] by {
        if NoDuplicates(s) {
          forall i, j | 0 <= i < j < |s[1..]| ensures s[1..][i] != s[1..][j] {
            assert s[1..][i] == s[i + 1] && s[1..][j] == s[j + 1];
          }
          forall k | 0 <= k < |s[1..]| ensures s[1..][k] != s[0] {
            assert s[1..][k] == s[k + 1];
          }
        }
      }
      (if s[0] == x then [] else [s[0]]) + rest
  }

  /** RemoveAll drops every copy of the element and keeps every other
      element with its multiplicity. */
  lemma {:induction false} RemoveAllCounts<T>(s: seq<T>, x: T)
    ensures multiset(RemoveAll(s, x)) == multiset(s)[x := 0]
    decreases |s|
  {
    if s != [] {
      RemoveAllCounts(s[1..], x);
      assert s == [s[0]] + s[1..];
    }
  }

  /** RemoveAll keeps the other elements in their order: it distributes
      over concatenation, so it is the order-preserving filter. */
  lemma {:induction false} RemoveAllConcat<T>(a: seq<T>, b: seq<T>, x: T)
    ensures RemoveAll(a + b, x) == RemoveAll(a, x) + RemoveAll(b, x)
    decreases |a|
  {
    if a == [] {
      assert a + b == b;
    } else {
      assert (a + b)[1..] == a[1..] + b;
      RemoveAllConcat(a[1..], b, x);
    }
  }

  /** Removing an absent element changes nothing. */
  lemma {:induction false} RemoveAllAbsent<T>(s: seq<T>, x: T)
    requires x !in s
    ensures RemoveAll(s, x) == s
    decreases |s|
  {
    if s != [] {
      RemoveAllAbsent(s[1..], x);
      assert s == [s[0]] + s[1..];
    }
  }

  /** Removing what was just appended restores the list. */
  lemma RemoveUndoesAppend<T>(s: seq<T>, x: T)
    requires x !in s
    ensures RemoveAll(AppendIfAbsent(s, x), x) == s
  {
    RemoveAllConcat(s, [x], x);
    RemoveAllAbsent(s, x);
    assert RemoveAll([x], x) == [];
  }

  /** Removing the first element of a repeat-free sequence leaves its tail. */
  lemma RemoveAllHead<T>(s: seq<T>)
    requires s != [] && NoDuplicates(s)
    ensures RemoveAll(s, s[0]) == s[1..]
  {
    assert s == [s[0]] + s[1..];
    RemoveAllConcat([s[0]], s[1..], s[0]);
    assert s[0] !in s[1..];
    RemoveAllAbsent(s[1..], s[0]);
  }

  /** One bullet of the outline with its tree links and extracted links. */
  datatype Block = Block(
    id: BlockId,
    content: BlockContent,
    indentLevel: IndentLevel,
    parentId: Option<BlockId>,
    childIds: seq<BlockId>,
    urls: seq<Url>,
    pageReferences: seq<PageReference>)
  {
    predicate IsRoot() { parentId.None? }

    predicate HasChildren() { childIds != [] }
  }

  function NewRoot(id: BlockId, content: BlockContent): (b: Block)
    ensures b.id == id && b.content == content && b.IsRoot() && b.indentLevel == RootLevel
    ensures !b.HasChildren() && b.urls == [] && b.pageReferences == []
  {
    Block(id, content, RootLevel, None, [], [], [])
  }

  function NewChild(id: BlockId, content: BlockContent, parentId: BlockId, indent: IndentLevel): (b: Block)
    ensures b.id == id && b.content == content && !b.IsRoot() && b.parentId == Some(parentId)
    ensures b.indentLevel == indent
    ensures !b.HasChildren() && b.urls == [] && b.pageReferences == []
  {
    Block(id, content, indent, Some(parentId), [], [], [])
  }

  function AddChild(b: Block, child: BlockId): (r: Block)
    ensures r == b.(childIds := r.childIds)
    ensures r.childIds == AppendIfAbsent(b.childIds, child)
    ensures r.HasChildren()
  {
    b.(childIds := AppendIfAbsent(b.childIds, child))
  }

  function RemoveChild(b: Block, child: BlockId): (r: Block)
    ensures r == b.(childIds := r.childIds)
    ensures child !in r.childIds
    ensures forall c :: c in b.childIds ==> (c in r.childIds <==> c != child)
    ensures forall c :: c in r.childIds ==> c in b.childIds
  {
    b.(childIds := RemoveAll(b.childIds, child))
  }

  function AddUrl(b: Block, url: Url): (r: Block)
    ensures r == b.(urls := r.urls)
    ensures r.urls == AppendIfAbsent(b.urls, url)
  {
    b.(urls := AppendIfAbsent(b.urls, url))
  }

  function AddPageReference(b: Block, reference: PageReference): (r: Block)
    ensures r == b.(pageReferences := r.pageReferences)
    ensures r.pageReferences == AppendIfAbsent(b.pageReferences, reference)
  {
    b.(pageReferences := AppendIfAbsent(b.pageReferences, reference))
  }

  function UpdateContent(b: Block, content: BlockContent): (r: Block)
    ensures r.content == content
    ensures r.(content := b.content) == b
  {
    b.(content := content)
  }

  function SetParent(b: Block, parentId: Option<BlockId>): (r: Block)
    ensures r == b.(parentId := parentId)
    ensures r.IsRoot() <==> parentId.None?
  {
    b.(parentId := parentId)
  }

  /**
   * Adding the same child twice leaves one copy, and the child list of a
   * fresh block stays duplicate-free under any sequence of AddChild.
   */
  lemma AddChildTwice(b: Block, c: BlockId)
    requires b.childIds == []
    ensures AddChild(AddChild(b, c), c).childIds == [c]
  {
  }

  /** Adding and then removing a child restores the block. */
  lemma RemoveChildUndoesAddChild(b: Block, c: BlockId)
    requires c !in b.childIds
    ensures RemoveChild(AddChild(b, c), c) == b
  {
    RemoveUndoesAppend(b.childIds, c);
  }

  /** Identifier of a text chunk. */
  datatype ChunkId = ChunkId(value: string)

  /** An embedding is an opaque vector of reals. */
  datatype EmbeddingVector = EmbeddingVector(values: seq<real>)

  /** A piece of preprocessed block text waiting for its embedding. */
  datatype TextChunk = TextChunk(
    id: ChunkId,
    blockId: BlockId,
    pageId: PageId,
    chunkIndex: nat,
    totalChunks: nat,
    originalContent: BlockContent,
    preprocessedContent: string,
    embedding: Option<EmbeddingVector>,
    pageTitle: string,
    hierarchyPath: seq<string>)
  {
    predicate HasEmbedding() { embedding.Some? }

    predicate IsSingleChunk() { totalChunks == 1 }
  }

  function NewTextChunk(id: ChunkId, blockId: BlockId, pageId: PageId, chunkIndex: nat, totalChunks: nat,
                        original: BlockContent, preprocessed: string, pageTitle: string,
                        hierarchyPath: seq<string>): (c: TextChunk)
    ensures !c.HasEmbedding()
    ensures c.IsSingleChunk() <==> totalChunks == 1
    ensures c.id == id && c.blockId == blockId && c.pageId == pageId && c.chunkIndex == chunkIndex
    ensures c.totalChunks == totalChunks && c.originalContent == original && c.pageTitle == pageTitle
    ensures c.preprocessedContent == preprocessed && c.hierarchyPath == hierarchyPath
  {
    TextChunk(id, blockId, pageId, chunkIndex, totalChunks, original, preprocessed, None, pageTitle, hierarchyPath)
  }

  function SetEmbedding(c: TextChunk, e: EmbeddingVector): (r: TextChunk)
    ensures r.HasEmbedding() && r.embedding == Some(e)
    ensures r == c.(embedding := Some(e))
  {
    c.(embedding := Some(e))
  }
}
