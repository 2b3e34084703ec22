// The import service (src/application/services/import_service.rs): a
// one-shot import of a Logseq directory. Files are parsed by concurrent
// tasks and their results collected one at a time, in whatever order they
// arrive; the collection loop is modelled over that arrival order, which
// is a parameter, as are the discovered listing and the elapsed time.
module ImportService {
  import opened Base
  import opened Strings
  import opened ValueObjects
  import opened Aggregates
  import opened PageRepository
  import opened Watcher
  import opened LogseqMarkdown

  /** `ImportError`; only the file-system case arises in `import_directory`. */
  datatype ImportError =
    | InvalidDirectory(msg: string)
    | FileSystem(msg: string)
    | Parse(parseError: ParseError)
    | Repository(domainError: DomainError)
    | Domain(msg: string)

  /** Why one file was not imported; the summary keeps the error value
      rather than its message. */
  datatype ImportFailure = ParseFailed(parseError: ParseError) | SaveFailed(domainError: DomainError)

  /** `ImportProgress`: the file counts and the file in progress. */
  datatype ImportProgress = ImportProgress(totalFiles: nat, filesProcessed: nat, currentFile: Option<Path>)

  /** `ImportProgressEvent`. */
  datatype ImportEvent =
    | Started(totalFiles: nat)
    | FileProcessed(filePath: Path, progress: ImportProgress)
    | Completed(pagesImported: nat, durationMs: nat)
    | Failed(error: string, filesProcessed: nat)

  /** `ImportSummary`. */
  datatype ImportSummary = ImportSummary(
    totalFiles: nat, pagesImported: nat, errors: seq<(Path, ImportFailure)>, durationMs: nat)

  /** `has_errors`. */
  function HasErrors(s: ImportSummary): (r: bool)
    ensures r <==> exists e :: e in s.errors
  {
    if s.errors == [] then false
    else
      assert s.errors[0] in s.errors;
      true
  }

  /** A percentage as the exact fraction `numerator / denominator`. */
  datatype Rate = Rate(numerator: nat, denominator: nat)

  /** `success_rate`: the share of files imported, in percent; 100 for an
      empty import. */
  function SuccessRate(s: ImportSummary): (r: Rate)
    ensures r.denominator > 0
    ensures s.totalFiles == 0 ==> r.numerator == 100 * r.denominator
    ensures s.totalFiles > 0 ==> r.numerator * s.totalFiles == 100 * s.pagesImported * r.denominator
  {
    if s.totalFiles == 0 then Rate(100, 1) else Rate(100 * s.pagesImported, s.totalFiles)
  }

  /** The rate is at most 100 when no more pages than files were imported,
      and exactly 100 when every file was. */
  lemma SuccessRateBounds(s: ImportSummary)
    requires s.pagesImported <= s.totalFiles
    ensures var r := SuccessRate(s);
      && r.numerator <= 100 * r.denominator
      && (r.numerator == 100 * r.denominator <==> s.pagesImported == s.totalFiles)
  {
    var r := SuccessRate(s);
    if s.totalFiles > 0 {
      assert r.numerator == 100 * s.pagesImported && r.denominator == s.totalFiles;
      if s.pagesImported < s.totalFiles {
        assert 100 * s.pagesImported < 100 * s.totalFiles;
      }
    }
  }

  /** Ten files, eight imported and two errors: 80 percent, with errors. */
  lemma EightOfTen(e1: (Path, ImportFailure), e2: (Path, ImportFailure))
    ensures var s := ImportSummary(10, 8, [e1, e2], 1000);
      && SuccessRate(s).numerator == 80 * SuccessRate(s).denominator && HasErrors(s)
  {
  }

  // ----- the collection loop, as a specification ------------------------------------

  /** One collected result: the file's path and what parsing it gave. */
  datatype Arrival = Arrival(path: Path, parsed: Result<PageData, ParseError>)

  /** A parsed page has the shape the parser guarantees. */
  ghost predicate FromParser(a: Arrival) {
    a.parsed.Ok? ==> WellFormed(a.parsed.value)
  }

  /** Why the arrival is not imported, or `None` when parsing and saving
      succeed. */
  function FailureOf(a: Arrival, unwritable: set<PageId>): (r: Option<ImportFailure>)
    ensures a.parsed.Err? ==> r == Some(ParseFailed(a.parsed.error))
    ensures a.parsed.Ok? ==> (r.None? <==> a.parsed.value.id !in unwritable)
    ensures r.Some? && a.parsed.Ok? ==> r.value.SaveFailed?
  {
    match a.parsed
    case Err(e) => Some(ParseFailed(e))
    case Ok(page) => if page.id in unwritable then Some(SaveFailed(SaveRejected)) else None
  }

  /** The pages imported from `arrivals`. */
  function Imported(arrivals: seq<Arrival>, unwritable: set<PageId>): nat {
    if arrivals == [] then 0
    else Imported(arrivals[..|arrivals| - 1], unwritable)
         + if FailureOf(arrivals[|arrivals| - 1], unwritable).None? then 1 else 0
  }

  /** The errors collected from `arrivals`, in arrival order. */
  function Failures(arrivals: seq<Arrival>, unwritable: set<PageId>): seq<(Path, ImportFailure)> {
    if arrivals == [] then []
    else
      var a := arrivals[|arrivals| - 1];
      var f := FailureOf(a, unwritable);
      Failures(arrivals[..|arrivals| - 1], unwritable) + if f.Some? then [(a.path, f.value)] else []
  }

  /** The store after saving every page that parsed, in arrival order. */
  function SavedAll(s: Store, arrivals: seq<Arrival>, unwritable: set<PageId>): Store {
    if arrivals == [] then s
    else
      var a := arrivals[|arrivals| - 1];
      var s' := SavedAll(s, arrivals[..|arrivals| - 1], unwritable);
      if FailureOf(a, unwritable).None? then Saved(s', a.parsed.value) else s'
  }

  /** The progress event for the `n`-th collected result and those before. */
  function ProgressEvents(arrivals: seq<Arrival>, total: nat): (es: seq<ImportEvent>)
    ensures |es| == |arrivals|
  {
    if arrivals == [] then []
    else ProgressEvents(arrivals[..|arrivals| - 1], total)
         + [FileProcessed(arrivals[|arrivals| - 1].path, ImportProgress(total, |arrivals|, None))]
  }

  /** The event closing an import: completion when nothing failed,
      otherwise failure with the number of files processed. */
  function FinalEvent(imported: nat, errors: seq<(Path, ImportFailure)>, processed: nat, durationMs: nat): ImportEvent {
    if errors == [] then Completed(imported, durationMs)
    else Failed(NatToString(|errors|) + " files failed to import", processed)
  }

  /** Every collected result is counted once: imported or failed. */
  lemma {:induction false} ImportAccounting(arrivals: seq<Arrival>, unwritable: set<PageId>)
    ensures Imported(arrivals, unwritable) + |Failures(arrivals, unwritable)| == |arrivals|
  {
    if arrivals != [] {
      ImportAccounting(arrivals[..|arrivals| - 1], unwritable);
    }
  }

  /** Each error names a collected file and says why it failed, and each
      file that failed has its error. */
  lemma {:induction false} FailuresAreFromArrivals(arrivals: seq<Arrival>, unwritable: set<PageId>)
    ensures forall e | e in Failures(arrivals, unwritable) ::
      exists a | a in arrivals :: a.path == e.0 && FailureOf(a, unwritable) == Some(e.1)
    ensures forall a | a in arrivals && FailureOf(a, unwritable).Some? ::
      (a.path, FailureOf(a, unwritable).value) in Failures(arrivals, unwritable)
  {
    if arrivals != [] {
      var init, last := arrivals[..|arrivals| - 1], arrivals[|arrivals| - 1];
      FailuresAreFromArrivals(init, unwritable);
      assert arrivals == init + [last];
      forall e | e in Failures(arrivals, unwritable)
        ensures exists a | a in arrivals :: a.path == e.0 && FailureOf(a, unwritable) == Some(e.1)
      {
        if e !in Failures(init, unwritable) {
          assert last in arrivals;
        }
      }
    }
  }

  /** The paths the arrivals report, in arrival order. */
  function ArrivalPaths(arrivals: seq<Arrival>): (r: seq<Path>)
    ensures |r| == |arrivals| && forall i :: 0 <= i < |arrivals| ==> r[i] == arrivals[i].path
  {
    if arrivals == [] then [] else [arrivals[0].path] + ArrivalPaths(arrivals[1..])
  }

  /** The specification functions on one more arrival. */
  lemma CollectStep(arrivals: seq<Arrival>, i: nat, unwritable: set<PageId>, s: Store, total: nat)
    requires i < |arrivals|
    ensures var a, f, init, next := arrivals[i], FailureOf(arrivals[i], unwritable), arrivals[..i], arrivals[..i + 1];
      && Imported(next, unwritable) == Imported(init, unwritable) + (if f.None? then 1 else 0)
      && Failures(next, unwritable) == Failures(init, unwritable) + (if f.Some? then [(a.path, f.value)] else [])
      && SavedAll(s, next, unwritable) == (if f.None? then Saved(SavedAll(s, init, unwritable), a.parsed.value)
                                          else SavedAll(s, init, unwritable))
      && ProgressEvents(next, total) == ProgressEvents(init, total) + [FileProcessed(a.path, ImportProgress(total, i + 1, None))]
  {
    assert arrivals[..i + 1][..i] == arrivals[..i];
  }

  /** No errors exactly when every collected file was imported. */
  lemma CompletedIffAllImported(arrivals: seq<Arrival>, unwritable: set<PageId>)
    ensures Failures(arrivals, unwritable) == [] <==> Imported(arrivals, unwritable) == |arrivals|
  {
    ImportAccounting(arrivals, unwritable);
  }

  // ----- the service ------------------------------------------------------------------

  class ImportService {
    const repo: PageRepository
    var maxConcurrentFiles: nat

    ghost predicate Valid()
      reads this, repo
    {
      repo.Valid()
    }

    /** `new`: bounded concurrency of four files. */
    constructor (repo: PageRepository)
      requires repo.Valid()
      ensures Valid() && this.repo == repo && maxConcurrentFiles == 4
    {
      this.repo := repo;
      maxConcurrentFiles := 4;
    }

    /** `with_concurrency`: replaces the bound and nothing else. */
    method WithConcurrency(maxConcurrent: nat)
      requires Valid()
      modifies this
      ensures Valid() && maxConcurrentFiles == maxConcurrent
    {
      maxConcurrentFiles := maxConcurrent;
    }

    /** One collected result: save the page if it parsed, and count the
        file as imported or failed. */
    method Collect(a: Arrival, imported: nat, errors: seq<(Path, ImportFailure)>)
      returns (imported': nat, errors': seq<(Path, ImportFailure)>)
      requires Valid() && FromParser(a)
      modifies repo
      ensures Valid() && repo.unwritable == old(repo.unwritable)
      ensures var f := FailureOf(a, repo.unwritable);
        && imported' == imported + (if f.None? then 1 else 0)
        && errors' == errors + (if f.Some? then [(a.path, f.value)] else [])
        && repo.pages == if f.None? then Saved(old(repo.pages), a.parsed.value) else old(repo.pages)
    {
      imported', errors' := imported, errors;
      match a.parsed
      case Err(e) =>
        errors' := errors + [(a.path, ParseFailed(e))];
      case Ok(page) =>
        var saved := repo.Save(page);
        if saved.Err? {
          errors' := errors + [(a.path, SaveFailed(saved.error))];
        } else {
          imported' := imported + 1;
        }
    }

    /** `import_directory`: discovers the files, then collects one result
        per finished parse, saving each page that parsed; with a callback
        the events `Started`, one `FileProcessed` per result and a final
        `Completed` or `Failed` are emitted, in that order. */
    method ImportDirectory(discovered: Result<seq<Path>, string>, arrivals: seq<Arrival>,
                           callback: bool, durationMs: nat)
      returns (r: Result<ImportSummary, ImportError>, events: seq<ImportEvent>)
      requires Valid() && forall a | a in arrivals :: FromParser(a)
      modifies repo
      ensures Valid() && repo.unwritable == old(repo.unwritable)
      ensures discovered.Err? ==> r == Err(FileSystem(discovered.error)) && events == []
                                  && repo.pages == old(repo.pages)
      ensures discovered.Ok? ==> r.Ok? && var s := r.value;
        && s.totalFiles == |discovered.value|
        && s.pagesImported == Imported(arrivals, repo.unwritable)
        && s.errors == Failures(arrivals, repo.unwritable)
        && s.durationMs == durationMs
        && repo.pages == SavedAll(old(repo.pages), arrivals, repo.unwritable)
        && events == if !callback then []
                     else [Started(s.totalFiles)] + ProgressEvents(arrivals, s.totalFiles)
                          + [FinalEvent(s.pagesImported, s.errors, |arrivals|, durationMs)]
    {
      if discovered.Err? {
        return Err(FileSystem(discovered.error)), [];
      }
      var total := |discovered.value|;
      events := if callback then [Started(total)] else [];
      var progress := ImportProgress(total, 0, None);
      var errors := [];
      var imported := 0;
      for i := 0 to |arrivals|
        invariant Valid() && repo.unwritable == old(repo.unwritable)
        invariant progress == ImportProgress(total, i, None)
        invariant imported == Imported(arrivals[..i], repo.unwritable)
        invariant errors == Failures(arrivals[..i], repo.unwritable)
        invariant repo.pages == SavedAll(old(repo.pages), arrivals[..i], repo.unwritable)
        invariant events == if callback then [Started(total)] + ProgressEvents(arrivals[..i], total) else []
      {
        CollectStep(arrivals, i, repo.unwritable, old(repo.pages), total);
        assert arrivals[i] in arrivals;
        imported, errors := Collect(arrivals[i], imported, errors);
        progress := progress.(filesProcessed := progress.filesProcessed + 1, currentFile := None);
        if callback {
          events := events + [FileProcessed(arrivals[i].path, progress)];
        }
      }
      assert arrivals[..|arrivals|] == arrivals;
      if callback {
        events := events + [FinalEvent(imported, errors, progress.filesProcessed, durationMs)];
      }
      r := Ok(ImportSummary(total, imported, errors, durationMs));
    }

    /** When every discovered file reports once, as the one task spawned
        per file does, the summary accounts for each of them once, every
        error names a discovered file, and the final event is `Completed`
        exactly when the summary has no errors. */
    method ImportAll(discovered: Result<seq<Path>, string>, arrivals: seq<Arrival>, durationMs: nat)
      returns (r: Result<ImportSummary, ImportError>, events: seq<ImportEvent>)
      requires Valid() && forall a | a in arrivals :: FromParser(a)
      requires discovered.Ok? ==> multiset(ArrivalPaths(arrivals)) == multiset(discovered.value)
      modifies repo
      ensures discovered.Ok? ==> r.Ok? && var s := r.value;
        && s.pagesImported + |s.errors| == s.totalFiles
        && (forall e | e in s.errors :: e.0 in discovered.value)
        && |events| == s.totalFiles + 2
        && (events[|events| - 1].Completed? <==> !HasErrors(s))
        && (events[|events| - 1].Failed? ==> events[|events| - 1].filesProcessed == s.totalFiles)
    {
      r, events := ImportDirectory(discovered, arrivals, true, durationMs);
      if discovered.Ok? {
        ImportAccounting(arrivals, repo.unwritable);
        FailuresAreFromArrivals(arrivals, repo.unwritable);
        var paths := ArrivalPaths(arrivals);
        assert |paths| == |multiset(paths)| == |multiset(discovered.value)| == |discovered.value|;
        forall e | e in r.value.errors
          ensures e.0 in discovered.value
        {
          var a :| a in arrivals && a.path == e.0 && FailureOf(a, repo.unwritable) == Some(e.1);
          var i :| 0 <= i < |arrivals| && arrivals[i] == a;
          assert paths[i] in multiset(paths);
        }
      }
    }
  }
}
