// The sync service (src/application/services/sync_service.rs): a one-shot
// sync of a Logseq directory against the page repository, driven by an
// in-memory registry path -> (title, modification time), and the handling
// of watcher events. The file system is a snapshot passed in: the listing
// of discovered files and, per file, its modification time and what
// `parse_file` reads from it.
module SyncService {
  import opened Base
  import opened Strings
  import opened ValueObjects
  import opened Entities
  import opened Aggregates
  import opened PageRepository
  import opened Watcher
  import opened LogseqMarkdown

  /** `FileMetadata`: the title a file was synced under and its
      modification time at that sync. */
  datatype FileMetadata = FileMetadata(title: string, lastModified: nat)

  type Registry = map<Path, FileMetadata>

  /** `SyncError`; the watcher case only arises when creating the watcher. */
  datatype SyncError =
    | FileSystem(msg: string)
    | Parse(parseError: ParseError)
    | Repository(domainError: DomainError)

  /** `SyncSummary`; an error is kept as the value, not its message. */
  datatype SyncSummary = SyncSummary(
    filesCreated: nat, filesUpdated: nat, filesDeleted: nat, filesUnchanged: nat,
    errors: seq<(Path, SyncError)>)

  /** What reading and parsing a file sees: its text or the read error,
      the fresh page id and the ids its blocks receive. */
  datatype FileContents = FileContents(text: Result<string, string>, pageId: PageId, blockIds: seq<BlockId>)

  /** A discovered file: its path, its modification time (or the
      error reading it) and its contents. */
  datatype DiscoveredFile = DiscoveredFile(path: Path, modified: Result<nat, string>, contents: FileContents)

  /** Enough distinct block ids for every line of the text. */
  predicate Parsable(c: FileContents) {
    c.text.Ok? ==> |Lines(c.text.value)| <= |c.blockIds| && NoDuplicates(c.blockIds)
  }

  ghost function ParsedContents(path: Path, c: FileContents): Result<PageData, ParseError>
    requires Parsable(c)
  {
    ParsedFile(path, c.text, c.pageId, c.blockIds)
  }

  // ----- staleness ---------------------------------------------------------------

  /** A file needs syncing when it has no registry entry or was modified
      strictly after the recorded time. */
  predicate NeedsSync(registry: Registry, path: Path, modified: nat) {
    path !in registry || modified > registry[path].lastModified
  }

  /** Once recorded at time `m`, a file is stale again exactly when its
      modification time passes `m`; an equal time is unchanged. */
  lemma RecordedIsCurrent(registry: Registry, path: Path, title: string, m: nat, later: nat)
    ensures NeedsSync(registry[path := FileMetadata(title, m)], path, later) <==> later > m
    ensures !NeedsSync(registry[path := FileMetadata(title, m)], path, m)
  {
  }

  /** Every listed file was read, has a title and is recorded no older
      than its current modification time. */
  predicate UpToDate(registry: Registry, files: seq<DiscoveredFile>) {
    forall f | f in files ::
      f.modified.Ok? && FileStem(f.path).Some? && f.path in registry
      && f.modified.value <= registry[f.path].lastModified
  }

  /** Registry entries are never dropped and their times never go back. */
  predicate Grows(before: Registry, after: Registry) {
    forall p | p in before :: p in after && after[p].lastModified >= before[p].lastModified
  }

  /** Recording a file that needed syncing keeps the registry growing. */
  lemma RecordingGrows(registry: Registry, path: Path, title: string, modified: nat)
    requires NeedsSync(registry, path, modified)
    ensures Grows(registry, registry[path := FileMetadata(title, modified)])
  {
  }

  lemma UpToDateStep(registry: Registry, files: seq<DiscoveredFile>, i: nat)
    requires i < |files| && UpToDate(registry, files[..i])
    requires var f := files[i];
      f.modified.Ok? && FileStem(f.path).Some? && f.path in registry && f.modified.value <= registry[f.path].lastModified
    ensures UpToDate(registry, files[..i + 1])
  {
    assert files[..i + 1] == files[..i] + [files[i]];
  }

  lemma GrowsKeepsUpToDate(before: Registry, after: Registry, files: seq<DiscoveredFile>)
    requires Grows(before, after) && UpToDate(before, files)
    ensures UpToDate(after, files)
  {
  }

  // ----- saving an updated page ------------------------------------------------------

  /** Titles name at most one stored page. */
  predicate TitlesUnique(s: Store) {
    forall a, b | a in s && b in s :: s[a].title == s[b].title ==> a == b
  }

  /** What `find_by_title` returned for `title` on `s`. */
  predicate FoundByTitle(s: Store, title: string, existing: Option<PageData>) {
    && (existing.Some? <==> TitleStored(s, title))
    && (existing.Some? ==> existing.value.title == title && existing.value.id in s && s[existing.value.id] == existing.value)
  }

  /** The store after `sync_file` saves a parsed page, as written: the page
      goes in under its fresh id, beside the page that already carried
      its title. */
  function SyncSaveAsWritten(s: Store, page: PageData): Store {
    Saved(s, page)
  }

  /** An updated file adds a second page with its title. */
  lemma {:induction false} SyncSaveAsWrittenDuplicates(s: Store, page: PageData, existing: Option<PageData>)
    requires KeyedById(s) && FoundByTitle(s, page.title, existing) && existing.Some?
    requires page.id !in s
    ensures var r := SyncSaveAsWritten(s, page);
      && existing.value.id in r && page.id in r && existing.value.id != page.id
      && r[existing.value.id].title == r[page.id].title == page.title
      && !TitlesUnique(r)
  {
    var r := SyncSaveAsWritten(s, page);
    assert r[existing.value.id] == s[existing.value.id];
  }

  /** The page to save: the parsed page under the id of the page already
      carrying its title, so that saving it replaces that page. */
  function Replacement(page: PageData, existing: Option<PageData>): PageData {
    if existing.Some? then page.(id := existing.value.id) else page
  }

  function SyncSave(s: Store, page: PageData, existing: Option<PageData>): Store {
    Saved(s, Replacement(page, existing))
  }

  /** The corrected save keeps titles unique: an updated file replaces
      its page and a new file adds one page; either way the page carrying
      the title is the parsed one. */
  lemma SyncSaveKeepsTitlesUnique(s: Store, page: PageData, existing: Option<PageData>)
    requires KeyedById(s) && TitlesUnique(s) && FoundByTitle(s, page.title, existing)
    requires page.id !in s
    ensures var r := SyncSave(s, page, existing);
      && TitlesUnique(r)
      && |r| == |s| + (if existing.Some? then 0 else 1)
      && forall id | id in r && r[id].title == page.title :: r[id].blocks == page.blocks && r[id].rootIds == page.rootIds
  {
    var r := SyncSave(s, page, existing);
    var q := Replacement(page, existing);
    forall a, b | a in r && b in r && r[a].title == r[b].title
      ensures a == b
    {
      if a != q.id && b != q.id {
        assert r[a] == s[a] && r[b] == s[b];
      }
    }
    if existing.Some? {
      assert r.Keys == s.Keys;
    } else {
      assert r.Keys == s.Keys + {page.id};
    }
  }

  // ----- the deletion sweep -------------------------------------------------------

  /** `after` is `before` with some pages deleted, each carrying one of
      `titles`; when titles were unique no page with one of them is left. */
  predicate Swept(before: Store, after: Store, titles: seq<string>) {
    && (forall id | id in after :: id in before && after[id] == before[id])
    && (forall id | id in before && id !in after :: before[id].title in titles)
    && (TitlesUnique(before) ==> forall id | id in after :: after[id].title !in titles)
  }

  /** The registry with the entries of `ps` removed, one after the other. */
  function Without(r: Registry, ps: seq<Path>): Registry {
    if ps == [] then r else Without(r, ps[..|ps| - 1]) - {ps[|ps| - 1]}
  }

  lemma {:induction false} WithoutSpec(r: Registry, ps: seq<Path>)
    ensures forall p :: p in Without(r, ps) <==> p in r && p !in ps
    ensures forall p | p in Without(r, ps) :: Without(r, ps)[p] == r[p]
  {
    if ps != [] {
      WithoutSpec(r, ps[..|ps| - 1]);
      assert ps == ps[..|ps| - 1] + [ps[|ps| - 1]];
    }
  }

  /** The titles recorded for the paths `ps`, in order. */
  function TitlesOf(r: Registry, ps: seq<Path>): (ts: seq<string>)
    requires forall p | p in ps :: p in r
    ensures |ts| == |ps|
  {
    if ps == [] then [] else TitlesOf(r, ps[..|ps| - 1]) + [r[ps[|ps| - 1]].title]
  }

  lemma {:induction false} TitlesOfSpec(r: Registry, ps: seq<Path>)
    requires forall p | p in ps :: p in r
    ensures forall t :: t in TitlesOf(r, ps) <==> exists p :: p in ps && r[p].title == t
  {
    if ps != [] {
      var init, last := ps[..|ps| - 1], ps[|ps| - 1];
      assert forall p | p in init :: p in ps;
      TitlesOfSpec(r, init);
      assert ps == init + [last];
    }
  }

  /** The next stale path is still registered: earlier steps removed only
      the paths before it. */
  lemma NextStillRegistered(r: Registry, stale: Registry, order: seq<Path>, i: nat)
    requires i < |order| && forall p | p in order :: p in stale
    requires forall p | p in stale :: p in r && stale[p] == r[p]
    requires forall a, b | 0 <= a < b < |order| :: order[a] != order[b]
    ensures order[i] in Without(r, order[..i]) && Without(r, order[..i])[order[i]] == stale[order[i]]
    ensures TitlesOf(stale, order[..i + 1]) == TitlesOf(stale, order[..i]) + [stale[order[i]].title]
    ensures Without(r, order[..i + 1]) == Without(r, order[..i]) - {order[i]}
  {
    WithoutSpec(r, order[..i]);
    assert order[..i + 1][..i] == order[..i];
  }

  /** After the sweep: exactly the present paths stay registered, and the
      titles handled are those of the entries that went away. */
  lemma SweepDone(r: Registry, current: set<Path>, stale: Registry, order: seq<Path>)
    requires stale == map p | p in r && p !in current :: r[p]
    requires forall p :: p in order <==> p in stale
    ensures Without(r, order) == map p | p in r && p in current :: r[p]
    ensures forall t :: t in TitlesOf(stale, order) <==> exists p :: p in r && p !in current && r[p].title == t
  {
    WithoutSpec(r, order);
    TitlesOfSpec(stale, order);
    forall p | p in r && p !in current
      ensures p in order && stale[p].title == r[p].title
    {
      assert p in stale;
    }
  }

  lemma SweptNothing(before: Store, after: Store)
    requires Swept(before, after, [])
    ensures after == before
  {
    assert after.Keys == before.Keys;
  }

  lemma SweptStep(s0: Store, s1: Store, s2: Store, titles: seq<string>, t: string)
    requires Swept(s0, s1, titles) && Swept(s1, s2, [t])
    ensures Swept(s0, s2, titles + [t])
  {
    if TitlesUnique(s0) {
      assert TitlesUnique(s1);
    }
  }

  /** The outcome of saving the parsed `page` of the file at `path`, the
      page `existing` carrying its title: a failed save changes nothing,
      a successful one replaces `existing`, records the file and bumps the
      created or the updated counter. */
  ghost predicate Stored(reg0: Registry, s0: Store, unwritable: set<PageId>, path: Path, title: string,
                         modified: nat, summary: SyncSummary, page: PageData, existing: Option<PageData>,
                         r: Result<(), SyncError>, next: SyncSummary, reg: Registry, s: Store)
  {
    && (r.Err? <==> Replacement(page, existing).id in unwritable)
    && (r.Err? ==> r.error.Repository?)
    && (r.Ok? ==>
          && s == SyncSave(s0, page, existing)
          && reg == reg0[path := FileMetadata(title, modified)]
          && next == if existing.Some? then summary.(filesUpdated := summary.filesUpdated + 1)
                     else summary.(filesCreated := summary.filesCreated + 1))
  }

  /** The outcome of syncing a file that needs it, `existing` being what
      the title lookup found: a parse error, or the parsed page stored. */
  ghost predicate Synced(reg0: Registry, s0: Store, unwritable: set<PageId>, f: DiscoveredFile,
                         title: string, modified: nat, summary: SyncSummary, existing: Option<PageData>,
                         r: Result<(), SyncError>, next: SyncSummary, reg: Registry, s: Store)
    requires Parsable(f.contents)
  {
    var parsed := ParsedContents(f.path, f.contents);
    && FoundByTitle(s0, title, existing)
    && (parsed.Err? ==> r == Err(Parse(parsed.error)))
    && (parsed.Ok? ==> Stored(reg0, s0, unwritable, f.path, title, modified, summary, parsed.value, existing, r, next, reg, s))
  }

  // ----- events ---------------------------------------------------------------------

  /** `SyncOperation`. */
  datatype SyncOperation = Create(path: Path) | Update(path: Path) | Delete(path: Path)

  /** The operation for a watcher event. */
  function OperationOf(e: FileEvent): (op: SyncOperation)
    ensures op.path == e.path
    ensures op.Create? <==> e.kind.Created?
    ensures op.Update? <==> e.kind.Modified?
    ensures op.Delete? <==> e.kind.Deleted?
  {
    match e.kind
    case Created => Create(e.path)
    case Modified => Update(e.path)
    case Deleted => Delete(e.path)
  }

  /** `SyncStats`: the operations that succeeded, by kind. */
  datatype SyncStats = SyncStats(filesCreated: nat, filesUpdated: nat, filesDeleted: nat)

  /** The successful results of kind `k`. */
  function CountOk(results: seq<Result<FileEventKind, SyncError>>, k: FileEventKind): (n: nat)
    ensures n <= |results|
  {
    if results == [] then 0
    else CountOk(results[..|results| - 1], k) + (if results[|results| - 1] == Ok(k) then 1 else 0)
  }

  function OkCount(results: seq<Result<FileEventKind, SyncError>>): (n: nat)
    ensures n <= |results|
  {
    if results == [] then 0
    else OkCount(results[..|results| - 1]) + (if results[|results| - 1].Ok? then 1 else 0)
  }

  /** Each successful result lands in the counter of its kind. */
  lemma {:induction false} CountsAddUp(results: seq<Result<FileEventKind, SyncError>>)
    ensures CountOk(results, Created) + CountOk(results, Modified) + CountOk(results, Deleted) == OkCount(results)
  {
    if results != [] {
      CountsAddUp(results[..|results| - 1]);
      var last := results[|results| - 1];
      if last.Ok? {
        assert last.value == Created || last.value == Modified || last.value == Deleted;
      }
    }
  }

  function Tally(results: seq<Result<FileEventKind, SyncError>>): SyncStats {
    SyncStats(CountOk(results, Created), CountOk(results, Modified), CountOk(results, Deleted))
  }

  lemma TallyStep(results: seq<Result<FileEventKind, SyncError>>, r: Result<FileEventKind, SyncError>)
    ensures var t, u := Tally(results), Tally(results + [r]);
      u == if r.Ok? then
             match r.value
             case Created => t.(filesCreated := t.filesCreated + 1)
             case Modified => t.(filesUpdated := t.filesUpdated + 1)
             case Deleted => t.(filesDeleted := t.filesDeleted + 1)
           else t
  {
    assert (results + [r])[..|results|] == results;
  }

  // ----- the service ------------------------------------------------------------------

  class SyncService {
    const repo: PageRepository
    /** The debounce duration in milliseconds. */
    const debounce: nat
    var registry: Registry

    ghost predicate Valid()
      reads this, repo
    {
      repo.Valid()
    }

    /** `new`: the debounce defaults to 500 ms; the registry starts empty. */
    constructor (repo: PageRepository, debounce: Option<nat>)
      requires repo.Valid()
      ensures Valid()
      ensures this.repo == repo && registry == map[]
      ensures this.debounce == if debounce.Some? then debounce.value else 500
    {
      this.repo := repo;
      this.debounce := if debounce.Some? then debounce.value else 500;
      registry := map[];
    }

    /** `sync_file`: brings one discovered file into the repository when it
        needs syncing and counts it. The page saved replaces the page that
        already carries the file's title (see `Replacement`). */
    method SyncFile(f: DiscoveredFile, summary: SyncSummary)
      returns (r: Result<(), SyncError>, next: SyncSummary, ghost existing: Option<PageData>)
      requires Valid() && Parsable(f.contents)
      modifies this, repo
      ensures Valid() && repo.unwritable == old(repo.unwritable)
      ensures Grows(old(registry), registry)
      ensures repo.pages.Keys <= old(repo.pages).Keys + {f.contents.pageId}
      ensures TitlesUnique(old(repo.pages)) && f.contents.pageId !in old(repo.pages) ==> TitlesUnique(repo.pages)
      ensures r.Err? ==> next == summary && registry == old(registry) && repo.pages == old(repo.pages)
      ensures r.Ok? ==> f.modified.Ok? && FileStem(f.path).Some? && f.path in registry
                        && registry[f.path].lastModified >= f.modified.value
      ensures f.modified.Err? ==> r == Err(FileSystem(f.modified.error))
      ensures f.modified.Ok? && FileStem(f.path).None? ==> r == Err(FileSystem("Invalid filename"))
      ensures f.modified.Ok? && FileStem(f.path).Some? && !NeedsSync(old(registry), f.path, f.modified.value) ==>
        && r.Ok? && next == summary.(filesUnchanged := summary.filesUnchanged + 1)
        && registry == old(registry) && repo.pages == old(repo.pages)
      ensures f.modified.Ok? && FileStem(f.path).Some? && NeedsSync(old(registry), f.path, f.modified.value) ==>
        Synced(old(registry), old(repo.pages), repo.unwritable, f, FileStem(f.path).value, f.modified.value,
               summary, existing, r, next, registry, repo.pages)
    {
      next, existing := summary, None;
      if f.modified.Err? {
        r := Err(FileSystem(f.modified.error));
        return;
      }
      var modified := f.modified.value;
      var title := FileStem(f.path);
      if title.None? {
        r := Err(FileSystem("Invalid filename"));
        return;
      }
      if !NeedsSync(registry, f.path, modified) {
        next := summary.(filesUnchanged := summary.filesUnchanged + 1);
        r := Ok(());
        return;
      }
      r, next, existing := SyncChanged(f, title.value, modified, summary);
    }

    /** The part of `sync_file` for a file that needs syncing: look its
        title up, parse it, then store the page. */
    method SyncChanged(f: DiscoveredFile, title: string, modified: nat, summary: SyncSummary)
      returns (r: Result<(), SyncError>, next: SyncSummary, ghost existing: Option<PageData>)
      requires Valid() && Parsable(f.contents) && FileStem(f.path) == Some(title)
      requires NeedsSync(registry, f.path, modified)
      modifies this, repo
      ensures Valid() && repo.unwritable == old(repo.unwritable)
      ensures Grows(old(registry), registry)
      ensures repo.pages.Keys <= old(repo.pages).Keys + {f.contents.pageId}
      ensures TitlesUnique(old(repo.pages)) && f.contents.pageId !in old(repo.pages) ==> TitlesUnique(repo.pages)
      ensures r.Err? ==> next == summary && registry == old(registry) && repo.pages == old(repo.pages)
      ensures r.Ok? ==> f.path in registry && registry[f.path].lastModified == modified
      ensures Synced(old(registry), old(repo.pages), repo.unwritable, f, title, modified,
                     summary, existing, r, next, registry, repo.pages)
    {
      var found := repo.FindByTitle(title);
      existing := found;
      var parsed := ParseFile(f.path, f.contents.text, f.contents.pageId, f.contents.blockIds);
      if parsed.Err? {
        next := summary;
        r := Err(Parse(parsed.error));
        return;
      }
      r, next := StoreParsed(f.path, title, modified, parsed.value, found, summary);
    }

    /** Saves the parsed page in place of the page found for its title,
        then records the file and counts it as created or updated. */
    method StoreParsed(path: Path, title: string, modified: nat, page: PageData,
                       found: Option<PageData>, summary: SyncSummary)
      returns (r: Result<(), SyncError>, next: SyncSummary)
      requires Valid() && WellFormed(page) && page.title == title
      requires FoundByTitle(repo.pages, title, found) && NeedsSync(registry, path, modified)
      modifies this, repo
      ensures Valid() && repo.unwritable == old(repo.unwritable)
      ensures Grows(old(registry), registry)
      ensures repo.pages.Keys <= old(repo.pages).Keys + {page.id}
      ensures TitlesUnique(old(repo.pages)) && page.id !in old(repo.pages) ==> TitlesUnique(repo.pages)
      ensures r.Err? ==> next == summary && registry == old(registry) && repo.pages == old(repo.pages)
      ensures Stored(old(registry), old(repo.pages), repo.unwritable, path, title, modified,
                     summary, page, found, r, next, registry, repo.pages)
    {
      next := summary;
      var saved := repo.Save(Replacement(page, found));
      if saved.Err? {
        r := Err(Repository(saved.error));
        return;
      }
      assert repo.pages == SyncSave(old(repo.pages), page, found);
      if page.id !in old(repo.pages) && TitlesUnique(old(repo.pages)) {
        SyncSaveKeepsTitlesUnique(old(repo.pages), page, found);
      }
      RecordingGrows(registry, path, title, modified);
      registry := registry[path := FileMetadata(title, modified)];
      if found.Some? {
        next := summary.(filesUpdated := summary.filesUpdated + 1);
      } else {
        next := summary.(filesCreated := summary.filesCreated + 1);
      }
      r := Ok(());
    }

    /** One iteration of the loop of `sync_once`: sync the file, and
        record its error, if any, against its path. */
    method SyncStep(f: DiscoveredFile, summary: SyncSummary) returns (next: SyncSummary)
      requires Valid() && Parsable(f.contents)
      modifies this, repo
      ensures Valid() && repo.unwritable == old(repo.unwritable)
      ensures next.filesDeleted == summary.filesDeleted
      ensures next.filesCreated + next.filesUpdated + next.filesUnchanged + |next.errors|
              == summary.filesCreated + summary.filesUpdated + summary.filesUnchanged + |summary.errors| + 1
      ensures |next.errors| >= |summary.errors|
      ensures forall e | e in next.errors :: e in summary.errors || e.0 == f.path
      ensures Grows(old(registry), registry)
      ensures next.errors == [] ==> f.modified.Ok? && FileStem(f.path).Some? && f.path in registry
                                    && registry[f.path].lastModified >= f.modified.value
      ensures f.modified.Ok? && FileStem(f.path).Some? && !NeedsSync(old(registry), f.path, f.modified.value) ==>
        && next == summary.(filesUnchanged := summary.filesUnchanged + 1)
        && registry == old(registry) && repo.pages == old(repo.pages)
      ensures repo.pages.Keys <= old(repo.pages).Keys + {f.contents.pageId}
      ensures TitlesUnique(old(repo.pages)) && f.contents.pageId !in old(repo.pages) ==> TitlesUnique(repo.pages)
    {
      var result, synced, _ := SyncFile(f, summary);
      next := synced;
      if result.Err? {
        next := next.(errors := next.errors + [(f.path, result.error)]);
      }
    }

    /** One stale entry: remove it from the registry and delete a page
        carrying its title, if there is one. */
    method DropEntry(path: Path) returns (removed: bool, ghost title: string)
      requires Valid() && path in registry
      modifies this, repo
      ensures Valid() && repo.unwritable == old(repo.unwritable)
      ensures registry == old(registry) - {path} && title == old(registry)[path].title
      ensures Swept(old(repo.pages), repo.pages, [title])
      ensures (if removed then 1 else 0) + |repo.pages| == |old(repo.pages)|
      ensures removed <==> TitleStored(old(repo.pages), title)
    {
      var metadata := registry[path];
      title := metadata.title;
      registry := registry - {path};
      var page := repo.FindByTitle(metadata.title);
      removed := false;
      if page.Some? {
        var _ := repo.Delete(page.value.id);
        removed := true;
      }
    }

    /** `handle_deletions`: drops every registry entry whose path is no
        longer present and deletes a page carrying its title, counting the
        deletions. */
    method HandleDeletions(current: set<Path>) returns (deleted: nat, ghost staleTitles: seq<string>)
      requires Valid()
      modifies this, repo
      ensures Valid() && repo.unwritable == old(repo.unwritable)
      ensures registry == map p | p in old(registry) && p in current :: old(registry)[p]
      ensures forall t :: t in staleTitles <==>
        exists p :: p in old(registry) && p !in current && old(registry)[p].title == t
      ensures Swept(old(repo.pages), repo.pages, staleTitles)
      ensures deleted + |repo.pages| == |old(repo.pages)|
    {
      var stale := map p | p in registry && p !in current :: registry[p];
      var toDelete := KeysInSomeOrder(stale);
      deleted := 0;
      staleTitles := [];
      for i := 0 to |toDelete|
        invariant Valid() && repo.unwritable == old(repo.unwritable)
        invariant registry == Without(old(registry), toDelete[..i])
        invariant staleTitles == TitlesOf(stale, toDelete[..i])
        invariant Swept(old(repo.pages), repo.pages, staleTitles)
        invariant deleted + |repo.pages| == |old(repo.pages)|
      {
        var path := toDelete[i];
        NextStillRegistered(old(registry), stale, toDelete, i);
        if path in registry {
          ghost var before := repo.pages;
          var removed, title := DropEntry(path);
          SweptStep(old(repo.pages), before, repo.pages, staleTitles, title);
          if removed {
            deleted := deleted + 1;
          }
          staleTitles := staleTitles + [title];
        }
      }
      assert toDelete[..|toDelete|] == toDelete;
      SweepDone(old(registry), current, stale, toDelete);
    }

    /** `sync_once`: syncs every listed file, collecting per-file errors
        and going on with the next file, then sweeps the registry for
        files that are gone. */
    method SyncOnce(listing: Result<seq<DiscoveredFile>, string>) returns (r: Result<SyncSummary, SyncError>)
      requires Valid() && (listing.Ok? ==> forall f | f in listing.value :: Parsable(f.contents))
      modifies this, repo
      ensures Valid() && repo.unwritable == old(repo.unwritable)
      ensures listing.Err? ==> r == Err(FileSystem(listing.error))
                               && registry == old(registry) && repo.pages == old(repo.pages)
      ensures listing.Ok? ==> r.Ok?
      ensures listing.Ok? ==> var files, s := listing.value, r.value;
        && s.filesCreated + s.filesUpdated + s.filesUnchanged + |s.errors| == |files|
        && (forall e | e in s.errors :: exists f | f in files :: f.path == e.0)
        && (forall p | p in registry :: exists f | f in files :: f.path == p)
        && (s.errors == [] ==> UpToDate(registry, files))
      ensures listing.Ok? && UpToDate(old(registry), listing.value)
              && (forall p | p in old(registry) :: exists f | f in listing.value :: f.path == p) ==>
        && r.value == SyncSummary(0, 0, 0, |listing.value|, [])
        && registry == old(registry) && repo.pages == old(repo.pages)
      ensures listing.Ok? && TitlesUnique(old(repo.pages)) && FreshIds(listing.value, old(repo.pages)) ==>
        TitlesUnique(repo.pages)
    {
      if listing.Err? {
        return Err(FileSystem(listing.error));
      }
      var files := listing.value;
      var current := PathsOf(files);
      var summary := SyncFiles(files);
      ghost var swept, synced := registry, repo.pages;
      var deleted, staleTitles := HandleDeletions(current);
      summary := summary.(filesDeleted := deleted);
      r := Ok(summary);
      KeptAreListed(swept, current, files);
      if summary.errors == [] {
        KeptStayUpToDate(swept, current, files);
      }
      if TitlesUnique(synced) {
        SweptKeepsTitlesUnique(synced, repo.pages, staleTitles);
      }
      if UpToDate(old(registry), files) && (forall p | p in old(registry) :: exists f | f in files :: f.path == p) {
        NoneGone(swept, current, files, staleTitles, synced, repo.pages);
      }
    }

    /** The loop of `sync_once` over the discovered files. */
    method SyncFiles(files: seq<DiscoveredFile>) returns (summary: SyncSummary)
      requires Valid() && forall f | f in files :: Parsable(f.contents)
      modifies this, repo
      ensures Valid() && repo.unwritable == old(repo.unwritable)
      ensures summary.filesDeleted == 0
      ensures summary.filesCreated + summary.filesUpdated + summary.filesUnchanged + |summary.errors| == |files|
      ensures forall e | e in summary.errors :: e.0 in PathsOf(files)
      ensures Grows(old(registry), registry)
      ensures summary.errors == [] ==> UpToDate(registry, files)
      ensures UpToDate(old(registry), files) ==>
        summary == SyncSummary(0, 0, 0, |files|, []) && registry == old(registry) && repo.pages == old(repo.pages)
      ensures TitlesUnique(old(repo.pages)) && FreshIds(files, old(repo.pages)) ==> TitlesUnique(repo.pages)
    {
      summary := SyncSummary(0, 0, 0, 0, []);
      ghost var paths := PathsOf(files);
      ghost var allCurrent := UpToDate(old(registry), files);
      ghost var freshIds := TitlesUnique(old(repo.pages)) && FreshIds(files, old(repo.pages));
      for i := 0 to |files|
        invariant Valid() && repo.unwritable == old(repo.unwritable)
        invariant summary.filesDeleted == 0
        invariant summary.filesCreated + summary.filesUpdated + summary.filesUnchanged + |summary.errors| == i
        invariant forall e | e in summary.errors :: e.0 in paths
        invariant Grows(old(registry), registry)
        invariant summary.errors == [] ==> UpToDate(registry, files[..i])
        invariant allCurrent ==>
          summary == SyncSummary(0, 0, 0, i, []) && registry == old(registry) && repo.pages == old(repo.pages)
        invariant repo.pages.Keys <= old(repo.pages).Keys + IdsUpTo(files, i)
        invariant freshIds ==> TitlesUnique(repo.pages)
      {
        var f := files[i];
        assert f.path in paths;
        if freshIds {
          FreshIdNotStored(files, old(repo.pages), repo.pages, i);
        }
        ghost var before := registry;
        summary := SyncStep(f, summary);
        if summary.errors == [] {
          GrowsKeepsUpToDate(before, registry, files[..i]);
          UpToDateStep(registry, files, i);
        }
      }
      assert files[..|files|] == files;
    }

    /** `process_operation`: Create and Update parse the file and save the
        page as parsed; Delete changes nothing. */
    method ProcessOperation(op: SyncOperation, c: FileContents) returns (r: Result<FileEventKind, SyncError>)
      requires Valid() && Parsable(c)
      modifies repo
      ensures Valid() && repo.unwritable == old(repo.unwritable)
      ensures op.Delete? ==> r == Ok(Deleted) && repo.pages == old(repo.pages)
      ensures !op.Delete? ==> var parsed := ParsedContents(op.path, c);
        && (parsed.Err? ==> r == Err(Parse(parsed.error)) && repo.pages == old(repo.pages))
        && (parsed.Ok? ==>
              && (r.Err? <==> parsed.value.id in repo.unwritable)
              && (r.Err? ==> r.error.Repository? && repo.pages == old(repo.pages))
              && (r.Ok? ==> repo.pages == Saved(old(repo.pages), parsed.value)))
      ensures r.Ok? ==> r.value == if op.Create? then Created else if op.Update? then Modified else Deleted
    {
      if op.Delete? {
        return Ok(Deleted);
      }
      var parsed := ParseFile(op.path, c.text, c.pageId, c.blockIds);
      if parsed.Err? {
        return Err(Parse(parsed.error));
      }
      var saved := repo.Save(parsed.value);
      if saved.Err? {
        return Err(Repository(saved.error));
      }
      r := if op.Create? then Ok(Created) else Ok(Modified);
    }

    /** The operation for one event, run. */
    method ProcessEvent(e: FileEvent, c: FileContents) returns (r: Result<FileEventKind, SyncError>)
      requires Valid() && Parsable(c)
      modifies repo
      ensures Valid() && repo.unwritable == old(repo.unwritable)
      ensures r.Ok? ==> r.value == e.kind
      ensures e.kind.Deleted? ==> r == Ok(Deleted)
    {
      r := ProcessOperation(OperationOf(e), c);
    }

    /** `process_events`: one operation per event; a failed operation is
        skipped, a successful one counted under its kind. */
    method ProcessEvents(events: seq<FileEvent>, contents: seq<FileContents>)
      returns (stats: SyncStats, ghost results: seq<Result<FileEventKind, SyncError>>)
      requires Valid() && |contents| == |events| && forall c | c in contents :: Parsable(c)
      modifies repo
      ensures Valid() && repo.unwritable == old(repo.unwritable)
      ensures |results| == |events|
      ensures forall i | 0 <= i < |events| :: results[i].Ok? ==> results[i].value == events[i].kind
      ensures forall i | 0 <= i < |events| :: events[i].kind.Deleted? ==> results[i] == Ok(Deleted)
      ensures stats == Tally(results)
      ensures stats.filesCreated + stats.filesUpdated + stats.filesDeleted == OkCount(results) <= |events|
    {
      stats := SyncStats(0, 0, 0);
      results := [];
      for i := 0 to |events|
        invariant Valid() && repo.unwritable == old(repo.unwritable)
        invariant |results| == i
        invariant forall j | 0 <= j < i :: results[j].Ok? ==> results[j].value == events[j].kind
        invariant forall j | 0 <= j < i :: events[j].kind.Deleted? ==> results[j] == Ok(Deleted)
        invariant stats == Tally(results)
      {
        assert contents[i] in contents;
        var r := ProcessEvent(events[i], contents[i]);
        TallyStep(results, r);
        if r.Ok? {
          match r.value
          case Created => stats := stats.(filesCreated := stats.filesCreated + 1);
          case Modified => stats := stats.(filesUpdated := stats.filesUpdated + 1);
          case Deleted => stats := stats.(filesDeleted := stats.filesDeleted + 1);
        }
        results := results + [r];
      }
      CountsAddUp(results);
    }

    /** Two syncs of the same listing: when the first reports no error,
        the second finds every file unchanged and nothing to delete. */
    method SyncTwice(listing: Result<seq<DiscoveredFile>, string>) returns (first: Result<SyncSummary, SyncError>, second: Result<SyncSummary, SyncError>)
      requires Valid() && (listing.Ok? ==> forall f | f in listing.value :: Parsable(f.contents))
      modifies this, repo
      ensures listing.Ok? && first.Ok? && first.value.errors == [] ==> second == Ok(SyncSummary(0, 0, 0, |listing.value|, []))
    {
      first := SyncOnce(listing);
      second := SyncOnce(listing);
    }
  }

  /** The paths of the discovered files. */
  function PathsOf(files: seq<DiscoveredFile>): (ps: set<Path>)
    ensures forall p :: p in ps <==> exists f | f in files :: f.path == p
  {
    set f | f in files :: f.path
  }

  /** What the sweep keeps is listed. */
  lemma KeptAreListed(r: Registry, current: set<Path>, files: seq<DiscoveredFile>)
    requires current == PathsOf(files)
    ensures var kept := map p | p in r && p in current :: r[p];
      forall p | p in kept :: exists f | f in files :: f.path == p
  {
  }

  /** The sweep keeps every listed file's entry as it was. */
  lemma KeptStayUpToDate(r: Registry, current: set<Path>, files: seq<DiscoveredFile>)
    requires current == PathsOf(files) && UpToDate(r, files)
    ensures UpToDate(map p | p in r && p in current :: r[p], files)
  {
    forall f | f in files
      ensures f.path in current
    {
    }
  }

  /** Deleting pages keeps titles unique. */
  lemma SweptKeepsTitlesUnique(before: Store, after: Store, titles: seq<string>)
    requires Swept(before, after, titles) && TitlesUnique(before)
    ensures TitlesUnique(after)
  {
  }

  /** With every registered path still listed, the sweep drops nothing
      and deletes no page. */
  lemma NoneGone(r: Registry, current: set<Path>, files: seq<DiscoveredFile>, titles: seq<string>,
                 before: Store, after: Store)
    requires current == PathsOf(files)
    requires forall p | p in r :: exists f | f in files :: f.path == p
    requires forall t :: t in titles <==> exists p :: p in r && p !in current && r[p].title == t
    requires Swept(before, after, titles)
    ensures (map p | p in r && p in current :: r[p]) == r
    ensures after == before
  {
    SweptNothing(before, after);
  }

  /** The fresh page ids of the first `i` files. */
  ghost function IdsUpTo(files: seq<DiscoveredFile>, i: nat): set<PageId>
    requires i <= |files|
  {
    set j | 0 <= j < i :: files[j].contents.pageId
  }

  /** The files' fresh page ids are distinct and not yet stored. */
  predicate FreshIds(files: seq<DiscoveredFile>, s: Store) {
    && (forall i | 0 <= i < |files| :: files[i].contents.pageId !in s)
    && (forall i, j | 0 <= i < j < |files| :: files[i].contents.pageId != files[j].contents.pageId)
  }

  lemma FreshIdNotStored(files: seq<DiscoveredFile>, s0: Store, s: Store, i: nat)
    requires i < |files| && FreshIds(files, s0)
    requires s.Keys <= s0.Keys + IdsUpTo(files, i)
    ensures files[i].contents.pageId !in s
  {
  }
}
