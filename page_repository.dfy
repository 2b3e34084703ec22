// The page repository contract (src/application/repositories/page_repository.rs)
// as an in-memory store keyed by page id. A store can be told that saving
// some ids fails, which stands for the I/O errors a real backend reports.
module PageRepository {
  import opened Base
  import opened ValueObjects
  import opened BlockTree
  import opened Aggregates

  type Store = map<PageId, PageData>

  /** Every page is stored under its own id. */
  predicate KeyedById(s: Store) {
    forall id :: id in s ==> s[id].id == id
  }

  /** Every page is stored under its own id and is a well-formed tree. */
  ghost predicate Consistent(s: Store) {
    KeyedById(s) && forall id :: StoredWellFormed(s, id)
  }

  ghost predicate StoredWellFormed(s: Store, id: PageId) {
    id in s ==> WellFormed(s[id])
  }

  /** The pages of a store read along an enumeration of its keys are
      every stored page, each once. */
  lemma EnumeratedPages(s: Store, order: seq<PageId>, r: seq<PageData>)
    requires KeyedById(s)
    requires |order| == |s| && forall id :: id in order <==> id in s
    requires forall i, j :: 0 <= i < j < |order| ==> order[i] != order[j]
    requires |r| == |order| && forall j :: 0 <= j < |r| ==> r[j] == s[order[j]]
    ensures forall i :: 0 <= i < |r| ==> r[i].id in s && s[r[i].id] == r[i]
    ensures forall id :: id in s ==> s[id] in r
    ensures forall i, j :: 0 <= i < j < |r| ==> r[i].id != r[j].id
  {
    forall id | id in s
      ensures s[id] in r
    {
      var j :| 0 <= j < |order| && order[j] == id;
      assert r[j] == s[id];
    }
  }

  /** A stored page of a consistent store is an acyclic arena whose blocks
      are keyed by their own ids. */
  lemma StoredPageShape(s: Store, id: PageId)
    requires Consistent(s) && id in s
    ensures IdsMatch(s[id].blocks) && Acyclic(s[id].blocks)
  {
    assert StoredWellFormed(s, id);
  }

  /** The store after an upsert of `page`. */
  function Saved(s: Store, page: PageData): (r: Store)
    ensures r.Keys == s.Keys + {page.id}
  {
    s[page.id := page]
  }

  /** The store after removing the page with id `id`, if any. */
  function Deleted(s: Store, id: PageId): (r: Store)
    ensures r.Keys == s.Keys - {id}
  {
    s - {id}
  }

  /** What `find_by_id` reports for a store. */
  function Lookup(s: Store, id: PageId): (r: Option<PageData>)
    ensures r.Some? <==> id in s
  {
    if id in s then Some(s[id]) else None
  }

  /** Some stored page carries this title. */
  predicate TitleStored(s: Store, title: string) {
    exists id :: id in s && s[id].title == title
  }

  /** After save(p), find_by_id(p.id) returns p and every other id reads
      as before. */
  lemma SaveThenLookup(s: Store, page: PageData, id: PageId)
    ensures Lookup(Saved(s, page), id) == if id == page.id then Some(page) else Lookup(s, id)
  {
  }

  /** Saving a page with an existing id replaces the earlier page. */
  lemma SaveReplaces(s: Store, p: PageData, q: PageData)
    requires p.id == q.id
    ensures Saved(Saved(s, p), q) == Saved(s, q)
  {
  }

  /** After delete(id) the id is gone and every other id reads as before. */
  lemma DeleteThenLookup(s: Store, id: PageId, other: PageId)
    ensures Lookup(Deleted(s, id), id).None?
    ensures other != id ==> Lookup(Deleted(s, id), other) == Lookup(s, other)
  {
  }

  lemma DeleteKeepsConsistent(s: Store, id: PageId)
    requires Consistent(s)
    ensures Consistent(Deleted(s, id))
  {
    forall k
      ensures StoredWellFormed(Deleted(s, id), k)
    {
      assert StoredWellFormed(s, k);
    }
  }

  /** Saving and deleting keep the store consistent. */
  lemma UpdatesKeepConsistent(s: Store, page: PageData, id: PageId)
    requires Consistent(s) && WellFormed(page)
    ensures Consistent(Saved(s, page)) && Consistent(Deleted(s, id))
  {
    forall k
      ensures StoredWellFormed(Saved(s, page), k) && StoredWellFormed(Deleted(s, id), k)
    {
      assert StoredWellFormed(s, k);
    }
  }

  /** The error of a save the backing store rejects. */
  const SaveRejected := InvalidOperation("failed to save page")

  class PageRepository {
    var pages: Store
    /** Ids whose save the backing store rejects. */
    var unwritable: set<PageId>

    ghost predicate Valid()
      reads this
    {
      Consistent(pages)
    }

    constructor (unwritable: set<PageId>)
      ensures Valid()
      ensures pages == map[] && this.unwritable == unwritable
    {
      pages := map[];
      this.unwritable := unwritable;
    }

    /** `save`: an upsert by id; it fails only when the store rejects the id. */
    method Save(page: PageData) returns (r: Result<(), DomainError>)
      requires Valid() && WellFormed(page)
      modifies this
      ensures Valid() && unwritable == old(unwritable)
      ensures r.Ok? <==> page.id !in unwritable
      ensures r.Err? ==> r.error == SaveRejected
      ensures pages == if r.Ok? then Saved(old(pages), page) else old(pages)
    {
      if page.id in unwritable {
        return Err(SaveRejected);
      }
      UpdatesKeepConsistent(pages, page, page.id);
      pages := Saved(pages, page);
      r := Ok(());
    }

    /** `find_by_id`. */
    method FindById(id: PageId) returns (r: Option<PageData>)
      ensures r.Some? <==> id in pages
      ensures r.Some? ==> r.value == pages[id]
    {
      if id in pages {
        r := Some(pages[id]);
      } else {
        r := None;
      }
    }

    /** `find_by_title`: some stored page with that title; which one is
        unspecified when titles repeat. */
    method FindByTitle(title: string) returns (r: Option<PageData>)
      requires KeyedById(pages)
      ensures r.Some? <==> TitleStored(pages, title)
      ensures r.Some? ==> r.value.title == title && r.value.id in pages && pages[r.value.id] == r.value
    {
      if TitleStored(pages, title) {
        var id :| id in pages && pages[id].title == title;
        r := Some(pages[id]);
      } else {
        r := None;
      }
    }

    /** `find_all`: every stored page exactly once, in map order. */
    method FindAll() returns (r: seq<PageData>)
      requires KeyedById(pages)
      ensures |r| == |pages|
      ensures forall i :: 0 <= i < |r| ==> r[i].id in pages && pages[r[i].id] == r[i]
      ensures forall id :: id in pages ==> pages[id] in r
      ensures forall i, j :: 0 <= i < j < |r| ==> r[i].id != r[j].id
    {
      var order := KeysInSomeOrder(pages);
      r := [];
      for i := 0 to |order|
        invariant |r| == i
        invariant forall j :: 0 <= j < i ==> r[j] == pages[order[j]]
      {
        r := r + [pages[order[i]]];
      }
      EnumeratedPages(pages, order, r);
    }

    /** `delete`: reports whether a page had that id; other pages stay. */
    method Delete(id: PageId) returns (r: bool)
      requires Valid()
      modifies this
      ensures Valid() && unwritable == old(unwritable)
      ensures r <==> id in old(pages)
      ensures pages == Deleted(old(pages), id)
    {
      r := id in pages;
      DeleteKeepsConsistent(pages, id);
      pages := Deleted(pages, id);
    }
  }
}
