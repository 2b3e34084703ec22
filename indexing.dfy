// The indexing use cases (src/application/use_cases/indexing.rs): saving
// one page, or a batch of pages in turn, into the page repository.
module Indexing {
  import opened Base
  import opened ValueObjects
  import opened Aggregates
  import opened PageRepository

  /** The store after saving `pages` one after the other. */
  function SavedAll(s: Store, pages: seq<PageData>): Store {
    if pages == [] then s
    else Saved(SavedAll(s, pages[..|pages| - 1]), pages[|pages| - 1])
  }

  /** Position of the first page whose save the store rejects. */
  function FirstRejected(pages: seq<PageData>, unwritable: set<PageId>, from: nat): (r: Option<nat>)
    requires from <= |pages|
    ensures r.Some? ==> from <= r.value < |pages| && pages[r.value].id in unwritable
    ensures r.Some? ==> forall j :: from <= j < r.value ==> pages[j].id !in unwritable
    ensures r.None? ==> forall j :: from <= j < |pages| ==> pages[j].id !in unwritable
    decreases |pages| - from
  {
    if from == |pages| then None
    else if pages[from].id in unwritable then Some(from)
    else FirstRejected(pages, unwritable, from + 1)
  }

  /** The last page of `pages` with id `id`, which wins after saving them
      all in turn. */
  function LastWithId(pages: seq<PageData>, id: PageId): (r: Option<PageData>)
    ensures r.Some? ==> r.value in pages && r.value.id == id
    ensures r.None? ==> forall i :: 0 <= i < |pages| ==> pages[i].id != id
  {
    if pages == [] then None
    else if pages[|pages| - 1].id == id then Some(pages[|pages| - 1])
    else LastWithId(pages[..|pages| - 1], id)
  }

  /**
   * `IndexPage::execute`: exactly one save of the page; a page with an
   * id already stored replaces the stored one.
   */
  method IndexPage(repo: PageRepository, page: PageData) returns (r: Result<(), DomainError>)
    requires repo.Valid() && WellFormed(page)
    modifies repo
    ensures repo.Valid() && repo.unwritable == old(repo.unwritable)
    ensures r.Ok? <==> page.id !in repo.unwritable
    ensures repo.pages == if r.Ok? then Saved(old(repo.pages), page) else old(repo.pages)
  {
    r := repo.Save(page);
  }

  /**
   * `BatchIndexPages::execute`: saves the pages in turn and counts them.
   * The first rejected save ends the batch with its error; the pages saved
   * before it stay saved.
   */
  method BatchIndexPages(repo: PageRepository, pages: seq<PageData>) returns (r: Result<nat, DomainError>)
    requires repo.Valid()
    requires forall i :: 0 <= i < |pages| ==> WellFormed(pages[i])
    modifies repo
    ensures repo.Valid() && repo.unwritable == old(repo.unwritable)
    ensures r.Ok? <==> FirstRejected(pages, repo.unwritable, 0).None?
    ensures r.Ok? ==> r.value == |pages| && repo.pages == SavedAll(old(repo.pages), pages)
    ensures r.Err? ==> repo.pages == SavedAll(old(repo.pages), pages[..FirstRejected(pages, repo.unwritable, 0).value])
  {
    var count := 0;
    ghost var s0, rejected := repo.pages, repo.unwritable;
    for i := 0 to |pages|
      invariant repo.Valid() && repo.unwritable == rejected
      invariant count == i
      invariant repo.pages == SavedAll(s0, pages[..i])
      invariant FirstRejected(pages, rejected, 0) == FirstRejected(pages, rejected, i)
    {
      var saved := repo.Save(pages[i]);
      if saved.Err? {
        return Err(saved.error);
      }
      SavedAllStep(s0, pages, i);
      count := count + 1;
    }
    assert pages[..|pages|] == pages;
    return Ok(count);
  }

  lemma SavedAllStep(s: Store, pages: seq<PageData>, i: nat)
    requires i < |pages|
    ensures SavedAll(s, pages[..i + 1]) == Saved(SavedAll(s, pages[..i]), pages[i])
  {
    assert pages[..i + 1][..i] == pages[..i];
  }

  /** After a batch, every id reads as the last page saved with it, or as
      before when no page of the batch has it. */
  lemma {:induction false} SavedAllLookup(s: Store, pages: seq<PageData>, id: PageId)
    ensures Lookup(SavedAll(s, pages), id) ==
      match LastWithId(pages, id)
      case None => Lookup(s, id)
      case Some(p) => Some(p)
  {
    if pages != [] {
      SavedAllLookup(s, pages[..|pages| - 1], id);
      SaveThenLookup(SavedAll(s, pages[..|pages| - 1]), pages[|pages| - 1], id);
    }
  }

  /** A batch of well-formed pages keeps the store consistent. */
  lemma {:induction false} SavedAllConsistent(s: Store, pages: seq<PageData>)
    requires Consistent(s)
    requires forall i :: 0 <= i < |pages| ==> WellFormed(pages[i])
    ensures Consistent(SavedAll(s, pages))
  {
    if pages != [] {
      SavedAllConsistent(s, pages[..|pages| - 1]);
      UpdatesKeepConsistent(SavedAll(s, pages[..|pages| - 1]), pages[|pages| - 1], pages[0].id);
    }
  }

  /** Saving pages with distinct new ids adds one stored page per page. */
  lemma {:induction false} SavedAllCount(s: Store, pages: seq<PageData>)
    requires forall i :: 0 <= i < |pages| ==> pages[i].id !in s
    requires forall i, j :: 0 <= i < j < |pages| ==> pages[i].id != pages[j].id
    ensures |SavedAll(s, pages)| == |s| + |pages|
  {
    if pages != [] {
      var init, last := pages[..|pages| - 1], pages[|pages| - 1];
      SavedAllCount(s, init);
      SavedAllLookup(s, init, last.id);
      var m := SavedAll(s, init);
      assert last.id !in m;
      assert Saved(m, last).Keys == m.Keys + {last.id};
    }
  }

  /** The "update existing" example: indexing a page again under its id
      replaces the stored title and blocks. */
  lemma ReindexReplaces(s: Store, first: PageData, second: PageData)
    requires first.id == second.id
    ensures Lookup(SavedAll(s, [first, second]), first.id) == Some(second)
  {
    assert [first, second][..1] == [first];
    assert [first][..0] == [];
  }
}
