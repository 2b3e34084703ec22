// Path predicates and event filtering of the file watcher
// (src/infrastructure/file_system/watcher.rs). The channel and the
// debouncer are not modelled: a received message is a value.
module Watcher {
  import opened Base

  /** A path component as `Path::components` yields it; `components`
      keeps a root only in front (see WellFormedPath). */
  datatype Component = RootDir | CurDir | ParentDir | Normal(name: string)

  type Path = seq<Component>

  /** A path as `components` produces it: the root can only come first. */
  predicate WellFormedPath(p: Path) {
    forall i :: 0 < i < |p| ==> !p[i].RootDir?
  }

  datatype FileEventKind = Created | Modified | Deleted

  datatype FileEvent = FileEvent(path: Path, kind: FileEventKind)

  /** The debouncer's event kinds. */
  datatype DebouncedEventKind = Any | AnyContinuous

  datatype DebouncedEvent = DebouncedEvent(path: Path, kind: DebouncedEventKind)

  /** What the debouncer channel delivers: a batch, a batch of watcher
      errors, or nothing (empty or disconnected channel). */
  datatype Message = Events(events: seq<DebouncedEvent>) | WatchErrors | NoMessage

  /** `Path::file_name`: the last component when it is a normal name. */
  function FileName(p: Path): (r: Option<string>)
    ensures r.Some? ==> |p| > 0 && p[|p| - 1] == Normal(r.value)
    ensures r.None? ==> |p| == 0 || !p[|p| - 1].Normal?
  {
    if |p| > 0 && p[|p| - 1].Normal? then Some(p[|p| - 1].name) else None
  }

  /** Index of the last '.' among the first `n` characters. */
  function LastDot(s: string, n: nat): (r: Option<nat>)
    requires n <= |s|
    ensures r.Some? ==> r.value < n && s[r.value] == '.'
    ensures r.Some? ==> forall j :: r.value < j < n ==> s[j] != '.'
    ensures r.None? ==> forall j :: 0 <= j < n ==> s[j] != '.'
  {
    if n == 0 then None
    else if s[n - 1] == '.' then Some(n - 1)
    else LastDot(s, n - 1)
  }

  /** The extension of a file name: the text after the last '.', provided
      that dot is not the name's first character. */
  function NameExtension(name: string): (r: Option<string>)
    ensures r.Some? <==> exists i :: 0 < i < |name| && name[i] == '.'
    ensures r.Some? ==> |r.value| < |name| - 1 && name[|name| - |r.value| - 1] == '.'
    ensures r.Some? ==> name[|name| - |r.value|..] == r.value
    ensures r.Some? ==> forall j :: 0 <= j < |r.value| ==> r.value[j] != '.'
  {
    match LastDot(name, |name|)
    case None => None
    case Some(i) =>
      if i == 0 then None
      else
        var ext := name[i + 1..];
        assert forall j :: 0 <= j < |ext| ==> ext[j] == name[i + 1 + j];
        Some(ext)
  }

  /** `Path::file_stem`: the file name without its extension. */
  function FileStem(p: Path): (r: Option<string>)
    ensures r.Some? <==> FileName(p).Some?
    ensures r.Some? && Extension(p).None? ==> r.value == FileName(p).value
    ensures r.Some? && Extension(p).Some? ==> FileName(p).value == r.value + "." + Extension(p).value
  {
    match FileName(p)
    case None => None
    case Some(name) =>
      match NameExtension(name)
      case None => Some(name)
      case Some(ext) =>
        var stem := name[..|name| - |ext| - 1];
        assert name == stem + "." + ext by {
          assert name == name[..|name| - |ext| - 1] + [name[|name| - |ext| - 1]] + name[|name| - |ext|..];
        }
        Some(stem)
  }

  /** `Path::extension`. */
  function Extension(p: Path): Option<string> {
    match FileName(p)
    case None => None
    case Some(name) => NameExtension(name)
  }

  /** `FileEvent::is_markdown`: the extension is exactly "md". */
  predicate IsMarkdown(e: FileEvent) {
    Extension(e.path) == Some("md")
  }

  /** A markdown file is a file name made of a non-empty stem and ".md". */
  lemma MarkdownIffSuffix(e: FileEvent)
    ensures IsMarkdown(e) <==>
      var name := FileName(e.path);
      name.Some? && |name.value| > 3 && name.value[|name.value| - 3..] == ".md"
  {
    match FileName(e.path)
    case None =>
    case Some(name) =>
      var ext := NameExtension(name);
      assert Extension(e.path) == ext;
      if |name| > 3 && name[|name| - 3..] == ".md" {
        assert name[|name| - 3] == '.';
        assert ext.Some?;
        var suffix := name[|name| - 3..];
        assert suffix[1] == name[|name| - 2] && suffix[2] == name[|name| - 1];
        assert ext.value == name[|name| - 2..] == suffix[1..];
        assert suffix[1..] == "md";
      }
      if ext == Some("md") {
        assert name[|name| - 3] == '.';
        assert name[|name| - 2..] == "md";
        assert name[|name| - 3..] == [name[|name| - 3]] + name[|name| - 2..];
      }
  }

  /** `Path::parent`: drop the last component unless it is the root or
      nothing is left. */
  function Parent(p: Path): (r: Option<Path>)
    ensures r.Some? <==> |p| > 0 && !p[|p| - 1].RootDir?
    ensures r.Some? ==> r.value + [p[|p| - 1]] == p
  {
    if |p| == 0 || p[|p| - 1].RootDir? then None else Some(p[..|p| - 1])
  }

  /** `Path::ancestors`: the path itself, then its parents in turn. */
  function Ancestors(p: Path): (r: seq<Path>)
    ensures |r| > 0 && r[0] == p
    ensures forall k :: 0 <= k < |r| ==> r[k] <= p
    decreases |p|
  {
    match Parent(p)
    case None => [p]
    case Some(q) => [p] + Ancestors(q)
  }

  predicate NamesLogseqDir(a: Path) {
    FileName(a) == Some("pages") || FileName(a) == Some("journals")
  }

  /** Some ancestor of the path is named pages or journals. */
  predicate InLogseqDirs(p: Path) {
    var ancestors := Ancestors(p);
    exists k :: 0 <= k < |ancestors| && NamesLogseqDir(ancestors[k])
  }

  /** `FileEvent::is_in_logseq_dirs`. */
  predicate IsInLogseqDirs(e: FileEvent) {
    InLogseqDirs(e.path)
  }

  predicate IsLogseqDirComponent(c: Component) {
    c == Normal("pages") || c == Normal("journals")
  }

  predicate HasLogseqDirComponent(p: Path) {
    exists i :: 0 <= i < |p| && IsLogseqDirComponent(p[i])
  }

  lemma InLogseqDirsStep(p: Path, q: Path)
    requires Parent(p) == Some(q)
    ensures InLogseqDirs(p) <==> NamesLogseqDir(p) || InLogseqDirs(q)
  {
    var ancestors := Ancestors(p);
    assert ancestors == [p] + Ancestors(q);
    if InLogseqDirs(q) {
      var k :| 0 <= k < |Ancestors(q)| && NamesLogseqDir(Ancestors(q)[k]);
      assert ancestors[k + 1] == Ancestors(q)[k];
    }
    if InLogseqDirs(p) && !NamesLogseqDir(p) {
      var k :| 0 <= k < |ancestors| && NamesLogseqDir(ancestors[k]);
      assert NamesLogseqDir(Ancestors(q)[k - 1]);
    }
  }

  lemma HasLogseqDirComponentSnoc(q: Path, c: Component)
    ensures HasLogseqDirComponent(q + [c]) <==> HasLogseqDirComponent(q) || IsLogseqDirComponent(c)
  {
    var p := q + [c];
    if HasLogseqDirComponent(q) {
      var i :| 0 <= i < |q| && IsLogseqDirComponent(q[i]);
      assert p[i] == q[i];
    }
    if IsLogseqDirComponent(c) {
      assert p[|q|] == c;
    }
    if HasLogseqDirComponent(p) && !IsLogseqDirComponent(c) {
      var i :| 0 <= i < |p| && IsLogseqDirComponent(p[i]);
      assert q[i] == p[i];
    }
  }

  /** A named ancestor is a prefix of the path, so its name is one of the
      path's components. */
  lemma InLogseqDirsHasComponent(p: Path)
    ensures InLogseqDirs(p) ==> HasLogseqDirComponent(p)
  {
    if InLogseqDirs(p) {
      var ancestors := Ancestors(p);
      var k :| 0 <= k < |ancestors| && NamesLogseqDir(ancestors[k]);
      var a := ancestors[k];
      assert a <= p;
      assert p[|a| - 1] == a[|a| - 1];
      assert IsLogseqDirComponent(p[|a| - 1]);
    }
  }

  /** Walking the ancestors amounts to looking for a component named
      pages or journals anywhere in the path. */
  lemma {:induction false} LogseqDirsIffComponent(p: Path)
    requires WellFormedPath(p)
    ensures InLogseqDirs(p) <==> HasLogseqDirComponent(p)
    decreases |p|
  {
    match Parent(p)
    case None =>
      assert Ancestors(p) == [p];
      if |p| > 0 {
        assert |p| == 1 && p[0].RootDir?;
      }
    case Some(q) =>
      InLogseqDirsStep(p, q);
      LogseqDirsIffComponent(q);
      HasLogseqDirComponentSnoc(q, p[|p| - 1]);
  }

  /** `LogseqFileWatcher::convert_event`: every debounced kind becomes
      Modified, and only markdown files under pages/ or journals/ pass. */
  function ConvertEvent(path: Path, kind: DebouncedEventKind): (r: Option<FileEvent>)
    ensures r.Some? ==> r.value == FileEvent(path, Modified)
  {
    var event := FileEvent(path, Modified);
    if IsMarkdown(event) && IsInLogseqDirs(event) then Some(event) else None
  }

  /** A path the watcher lets through. */
  predicate Watched(path: Path) {
    var name := FileName(path);
    name.Some? && |name.value| > 3 && name.value[|name.value| - 3..] == ".md" &&
    HasLogseqDirComponent(path)
  }

  /** convert_event keeps an event iff its file name ends in ".md" after a
      non-empty stem and one of its directories is pages or journals; the
      debounced kind plays no part. */
  lemma ConvertEventIffWatched(path: Path, kind: DebouncedEventKind)
    requires WellFormedPath(path)
    ensures ConvertEvent(path, kind).Some? <==> Watched(path)
    ensures ConvertEvent(path, kind) == ConvertEvent(path, Any)
  {
    MarkdownIffSuffix(FileEvent(path, Modified));
    LogseqDirsIffComponent(path);
  }

  /** The `filter_map(convert_event)` over a received batch. */
  function FilterEvents(events: seq<DebouncedEvent>): (r: seq<FileEvent>)
    ensures |r| <= |events|
    ensures forall k :: 0 <= k < |r| ==> r[k].kind == Modified
  {
    if events == [] then []
    else
      var e := events[0];
      var rest := FilterEvents(events[1..]);
      match ConvertEvent(e.path, e.kind)
      case None => rest
      case Some(f) => [f] + rest
  }

  /** Filtering works piecewise, so kept events keep their batch order. */
  lemma {:induction false} FilterEventsAppend(a: seq<DebouncedEvent>, b: seq<DebouncedEvent>)
    ensures FilterEvents(a + b) == FilterEvents(a) + FilterEvents(b)
  {
    if a == [] {
      assert a + b == b;
    } else {
      assert (a + b)[0] == a[0];
      assert (a + b)[1..] == a[1..] + b;
      FilterEventsAppend(a[1..], b);
    }
  }

  /** An event comes out of the filter iff some event of the batch is at
      its path and that path passes convert_event. */
  lemma {:induction false} FilterEventsMembers(events: seq<DebouncedEvent>, f: FileEvent)
    ensures f in FilterEvents(events) <==>
      f.kind == Modified &&
      exists k :: 0 <= k < |events| && events[k].path == f.path && ConvertEvent(f.path, events[k].kind).Some?
  {
    if events != [] {
      FilterEventsMembers(events[1..], f);
      if exists k :: 1 <= k < |events| && events[k].path == f.path && ConvertEvent(f.path, events[k].kind).Some? {
        var k :| 1 <= k < |events| && events[k].path == f.path && ConvertEvent(f.path, events[k].kind).Some?;
        assert events[1..][k - 1] == events[k];
      }
      if exists k :: 0 <= k < |events| - 1 && events[1..][k].path == f.path && ConvertEvent(f.path, events[1..][k].kind).Some? {
        var k :| 0 <= k < |events| - 1 && events[1..][k].path == f.path && ConvertEvent(f.path, events[1..][k].kind).Some?;
        assert events[k + 1] == events[1..][k];
      }
    }
  }

  /** The batch handed to the sync service by `recv`/`try_recv`: the
      filtered events when there are any, and nothing otherwise (watcher
      errors and an empty or closed channel give nothing). */
  function ReceiveBatch(m: Message): (r: Option<seq<FileEvent>>)
    ensures r.Some? ==> m.Events? && r.value == FilterEvents(m.events) && r.value != []
  {
    match m
    case Events(events) =>
      var kept := FilterEvents(events);
      if kept == [] then None else Some(kept)
    case WatchErrors => None
    case NoMessage => None
  }

  /** A batch of events yields nothing exactly when none of its paths is
      watched. */
  lemma {:induction false} ReceiveBatchNoneIff(events: seq<DebouncedEvent>)
    ensures ReceiveBatch(Events(events)).None? <==>
      forall k :: 0 <= k < |events| ==> ConvertEvent(events[k].path, events[k].kind).None?
  {
    if events != [] {
      ReceiveBatchNoneIff(events[1..]);
      assert forall k :: 1 <= k < |events| ==> events[k] == events[1..][k - 1];
    }
  }

  /** The markdown examples of the unit tests. */
  lemma MarkdownExamples()
    ensures IsMarkdown(FileEvent([RootDir, Normal("test"), Normal("file.md")], Created))
    ensures !IsMarkdown(FileEvent([RootDir, Normal("test"), Normal("file.txt")], Created))
  {
    MarkdownIffSuffix(FileEvent([RootDir, Normal("test"), Normal("file.md")], Created));
    assert "file.md"[4..] == ".md";
    MarkdownIffSuffix(FileEvent([RootDir, Normal("test"), Normal("file.txt")], Created));
    assert "file.txt"[5..] == "txt";
  }

  /** The directory examples of the unit tests. */
  lemma LogseqDirExamples()
    ensures InLogseqDirs([RootDir, Normal("logseq"), Normal("pages"), Normal("file.md")])
    ensures !InLogseqDirs([RootDir, Normal("logseq"), Normal("assets"), Normal("image.png")])
  {
    var pages: Path := [RootDir, Normal("logseq"), Normal("pages"), Normal("file.md")];
    assert Parent(pages) == Some(pages[..3]);
    assert Ancestors(pages) == [pages] + Ancestors(pages[..3]);
    assert NamesLogseqDir(Ancestors(pages)[1]);
    var assets: Path := [RootDir, Normal("logseq"), Normal("assets"), Normal("image.png")];
    InLogseqDirsHasComponent(assets);
    assert "logseq" != "pages" && "logseq" != "journals";
    assert "assets" != "pages" && "assets" != "journals";
    assert "image.png" != "pages" && "image.png" != "journals";
  }
}
