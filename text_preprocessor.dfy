// Text preparation for embeddings (src/infrastructure/embeddings/text_preprocessor.rs):
// the clean-up and context prefix of `preprocess`, and the word windows of
// `chunk_text`. The three regular expressions of the source are written out
// as scans over the text; `\s` and `\w` are their ASCII subsets.
module TextPreprocessor {
  import opened Base
  import opened Strings
  import opened ValueObjects

  // ----- chunk_text ---------------------------------------------------------------

  /**
   * The word windows of `chunk_text` from word `start` on, as (start, end)
   * positions: `max` words each, fewer in the last one, and each next
   * window starting `overlap` words before the end of the previous one.
   */
  function Windows(len: nat, max: nat, overlap: nat, start: nat): (r: seq<(nat, nat)>)
    requires overlap < max
    ensures forall k | 0 <= k < |r| :: start <= r[k].0 < r[k].1 <= len && r[k].1 - r[k].0 <= max
    decreases len - start
  {
    if start >= len then []
    else
      var end := if start + max < len then start + max else len;
      [(start, end)] + if end >= len then [] else Windows(len, max, overlap, end - overlap)
  }

  /**
   * The pieces of the windows from `start` on, after the pieces `done`
   * already cut: `piece(s, e)` for each window (s, e).
   */
  function Pieces<T>(len: nat, max: nat, overlap: nat, start: nat, done: seq<T>, piece: (nat, nat) -> T): seq<T>
    requires overlap < max
    decreases len - start
  {
    if start >= len then done
    else
      var end := if start + max < len then start + max else len;
      var acc := done + [piece(start, end)];
      if end >= len then acc else Pieces(len, max, overlap, end - overlap, acc, piece)
  }

  /** The text of the window (s, e) of `words`: its words joined by single spaces. */
  function Span(words: seq<string>): (nat, nat) -> string {
    (s: nat, e: nat) => if s <= e <= |words| then Join(words[s..e], " ") else []
  }

  /** What `chunk_text` returns: the text itself when it has at most `max` words, otherwise the window texts. */
  function Chunks(text: string, max: nat, overlap: nat): seq<string>
    requires |Words(text)| <= max || overlap < max
  {
    var words := Words(text);
    if |words| <= max then [text]
    else Pieces(|words|, max, overlap, 0, [], Span(words))
  }

  /**
   * `chunk_text`. A text longer than `max` words is only cut when `overlap`
   * is below `max` (otherwise the window never advances, or the start
   * underflows), so the caller must ensure that; the defaults, 150 and 50, do.
   */
  method ChunkText(text: string, maxWords: nat, overlapWords: nat) returns (chunks: seq<string>)
    requires |Words(text)| <= maxWords || overlapWords < maxWords
    ensures chunks == Chunks(text, maxWords, overlapWords)
  {
    var words := Words(text);
    if |words| <= maxWords {
      return [text];
    }
    chunks := ChunkWords(words, maxWords, overlapWords);
  }

  /** The window loop of `chunk_text` over the words of the text. */
  method ChunkWords(words: seq<string>, maxWords: nat, overlapWords: nat) returns (chunks: seq<string>)
    requires overlapWords < maxWords
    ensures chunks == Pieces(|words|, maxWords, overlapWords, 0, [], Span(words))
  {
    chunks := [];
    var start := 0;
    while start < |words|
      invariant Pieces(|words|, maxWords, overlapWords, start, chunks, Span(words)) ==
        Pieces(|words|, maxWords, overlapWords, 0, [], Span(words))
      decreases |words| - start
    {
      var end := if start + maxWords < |words| then start + maxWords else |words|;
      var chunk := Join(words[start..end], " ");
      assert chunk == Span(words)(start, end);
      chunks := chunks + [chunk];
      if end >= |words| {
        break;
      }
      start := end - overlapWords;
    }
  }

  /** The pieces are cut from the windows, one for one, after those already done. */
  lemma {:induction false} PiecesOfWindows<T>(len: nat, max: nat, overlap: nat, start: nat, done: seq<T>, piece: (nat, nat) -> T)
    requires overlap < max
    ensures var r, ws := Pieces(len, max, overlap, start, done, piece), Windows(len, max, overlap, start);
      && |r| == |done| + |ws| && r[..|done|] == done
      && forall k | 0 <= k < |ws| :: r[|done| + k] == piece(ws[k].0, ws[k].1)
    decreases len - start
  {
    if start < len {
      var end := if start + max < len then start + max else len;
      var acc := done + [piece(start, end)];
      if end < len {
        PiecesOfWindows(len, max, overlap, end - overlap, acc, piece);
        var rest := Windows(len, max, overlap, end - overlap);
        assert Windows(len, max, overlap, start) == [(start, end)] + rest;
        PiecesShifted(Pieces(len, max, overlap, start, done, piece), done, [(start, end)] + rest, rest, piece);
      }
    }
  }

  /** The pieces after `done` and one more piece, for the windows after the first, are the pieces after `done` for all of them. */
  lemma PiecesShifted<T>(r: seq<T>, done: seq<T>, ws: seq<(nat, nat)>, rest: seq<(nat, nat)>, piece: (nat, nat) -> T)
    requires ws != [] && rest == ws[1..]
    requires var acc := done + [piece(ws[0].0, ws[0].1)];
      && |r| == |acc| + |rest| && r[..|acc|] == acc
      && forall k | 0 <= k < |rest| :: r[|acc| + k] == piece(rest[k].0, rest[k].1)
    ensures |r| == |done| + |ws| && r[..|done|] == done
    ensures forall k | 0 <= k < |ws| :: r[|done| + k] == piece(ws[k].0, ws[k].1)
  {
    var acc := done + [piece(ws[0].0, ws[0].1)];
    assert r[..|done|] == r[..|acc|][..|done|];
    forall k | 0 <= k < |ws| ensures r[|done| + k] == piece(ws[k].0, ws[k].1) {
      if k > 0 {
        assert ws[k] == rest[k - 1];
        assert r[|done| + k] == r[|acc| + (k - 1)];
      } else {
        assert r[|done|] == r[..|acc|][|done|];
      }
    }
  }

  /**
   * The windows from `start` cover the words from `start` to the end: the
   * first starts at `start`, the last ends at `len`, every window but the
   * last holds exactly `max` words, and each next window starts exactly
   * `overlap` words before the end of the one before it.
   */
  lemma {:induction false} WindowsShape(len: nat, max: nat, overlap: nat, start: nat)
    requires overlap < max && start < len
    ensures var r := Windows(len, max, overlap, start);
      && r != [] && r[0].0 == start && r[|r| - 1].1 == len
      && (forall k | 0 <= k < |r| - 1 :: r[k].1 - r[k].0 == max && r[k + 1].0 == r[k].1 - overlap)
    decreases len - start
  {
    var r := Windows(len, max, overlap, start);
    var end := if start + max < len then start + max else len;
    if end < len {
      var next := end - overlap;
      WindowsShape(len, max, overlap, next);
      var rest := Windows(len, max, overlap, next);
      assert r == [(start, end)] + rest;
      forall k | 0 <= k < |r| - 1 ensures r[k].1 - r[k].0 == max && r[k + 1].0 == r[k].1 - overlap {
        if k > 0 {
          assert r[k] == rest[k - 1] && r[k + 1] == rest[k];
        }
      }
    }
  }

  /** Splitting a chunk into words again gives back the words of its window. */
  lemma WindowWords(words: seq<string>, s: nat, e: nat)
    requires s <= e <= |words| && forall i | 0 <= i < |words| :: IsWord(words[i])
    ensures Words(Join(words[s..e], " ")) == words[s..e]
  {
    var piece := words[s..e];
    assert forall i | 0 <= i < |piece| :: piece[i] == words[s + i];
    WordsOfJoin(piece);
  }

  /**
   * More than `max` words are cut into several chunks, one per window
   * (whose shape WindowsShape gives), each the window's words joined by
   * single spaces.
   */
  lemma ChunksOfWords(words: seq<string>, max: nat, overlap: nat)
    requires overlap < max && |words| > max
    ensures var r, ws := Pieces(|words|, max, overlap, 0, [], Span(words)), Windows(|words|, max, overlap, 0);
      && |r| == |ws| > 1
      && forall k | 0 <= k < |r| :: r[k] == Join(words[ws[k].0..ws[k].1], " ")
  {
    var ws := Windows(|words|, max, overlap, 0);
    WindowsShape(|words|, max, overlap, 0);
    PiecesOfWindows(|words|, max, overlap, 0, [], Span(words));
    assert ws[0].1 - ws[0].0 <= max < |words|;
    var r := Pieces(|words|, max, overlap, 0, [], Span(words));
    forall k | 0 <= k < |r| ensures r[k] == Join(words[ws[k].0..ws[k].1], " ") {
      SpanOf(words, ws[k].0, ws[k].1);
    }
  }

  lemma SpanOf(words: seq<string>, s: nat, e: nat)
    requires s <= e <= |words|
    ensures Span(words)(s, e) == Join(words[s..e], " ")
  {
  }

  /** A long text is chunked as its words are. */
  lemma ChunksOfLongText(text: string, max: nat, overlap: nat)
    requires overlap < max && |Words(text)| > max
    ensures var words := Words(text);
      && Chunks(text, max, overlap) == Pieces(|words|, max, overlap, 0, [], Span(words))
      && forall i | 0 <= i < |words| :: IsWord(words[i])
  {
  }

  /** A text of at most `max` words is returned whole, as the only chunk. */
  lemma ChunksOfShortText(text: string, max: nat, overlap: nat)
    requires |Words(text)| <= max
    ensures Chunks(text, max, overlap) == [text]
  {
  }

  // ----- preprocess ---------------------------------------------------------------

  /** The markers the leading-marker expression accepts, in its order. */
  const TaskMarkers: seq<string> := ["TODO", "DONE", "LATER", "NOW", "IN-PROGRESS"]

  /** `t` starts with `marker` followed by whitespace. */
  predicate MarkerThenWhitespace(t: string, marker: string) {
    |t| > |marker| && t[..|marker|] == marker && IsWhitespace(t[|marker|])
  }

  /** The index in TaskMarkers of the marker `t` starts with, followed by whitespace, if any. */
  function LeadingMarker(t: string): (r: Option<nat>)
    ensures r.Some? ==> r.value < |TaskMarkers| && MarkerThenWhitespace(t, TaskMarkers[r.value])
    ensures r.None? ==> forall k | 0 <= k < |TaskMarkers| :: !MarkerThenWhitespace(t, TaskMarkers[k])
  {
    LeadingMarkerFrom(t, 0)
  }

  function LeadingMarkerFrom(t: string, k: nat): (r: Option<nat>)
    requires k <= |TaskMarkers|
    ensures r.Some? ==> k <= r.value < |TaskMarkers| && MarkerThenWhitespace(t, TaskMarkers[r.value])
    ensures r.None? ==> forall j | k <= j < |TaskMarkers| :: !MarkerThenWhitespace(t, TaskMarkers[j])
    decreases |TaskMarkers| - k
  {
    if k == |TaskMarkers| then None
    else if MarkerThenWhitespace(t, TaskMarkers[k]) then Some(k)
    else LeadingMarkerFrom(t, k + 1)
  }

  /** `^(TODO|DONE|LATER|NOW|IN-PROGRESS)\s+` replaced by nothing: the marker and all the whitespace after it go. */
  function StripMarker(t: string): string {
    match LeadingMarker(t)
    case None => t
    case Some(k) => TrimStart(t[|TaskMarkers[k]|..])
  }

  /** The position of the first ']' in `s[from..]`, or |s|. */
  function CloseAt(s: string, from: nat): (j: nat)
    requires from <= |s|
    ensures from <= j <= |s| && (j < |s| ==> s[j] == ']')
    ensures forall i | from <= i < j :: s[i] != ']'
    decreases |s| - from
  {
    if from == |s| || s[from] == ']' then from else CloseAt(s, from + 1)
  }

  /**
   * `\[\[([^\]]+)\]\]` replaced by its group, all matches left to right:
   * "[[", then one or more characters other than ']', then "]]" becomes
   * those characters.
   */
  function ReplaceReferences(s: string): (r: string)
    decreases |s|
  {
    if s == [] then []
    else if |s| >= 2 && s[0] == '[' && s[1] == '[' && 2 < CloseAt(s, 2) < |s| - 1 && s[CloseAt(s, 2) + 1] == ']' then
      var j := CloseAt(s, 2);
      s[2..j] + ReplaceReferences(s[j + 2..])
    else [s[0]] + ReplaceReferences(s[1..])
  }

  /** `\w` over ASCII: letters, digits and '_'. */
  predicate IsWordChar(c: char) {
    ('a' <= c <= 'z') || ('A' <= c <= 'Z') || ('0' <= c <= '9') || c == '_'
  }

  /** `#(\w+)` replaced by its group: each '#' that a word character follows is dropped. */
  function RemoveTagMarks(s: string): (r: string)
    ensures |r| <= |s|
  {
    if s == [] then []
    else if s[0] == '#' && |s| > 1 && IsWordChar(s[1]) then RemoveTagMarks(s[1..])
    else [s[0]] + RemoveTagMarks(s[1..])
  }

  /** The body after the three rewrites, in the order `preprocess` applies them. */
  function CleanBody(content: string): string {
    RemoveTagMarks(ReplaceReferences(StripMarker(content)))
  }

  /** At most the last two entries of the hierarchy path. */
  function LastParents(path: seq<string>): (r: seq<string>)
    ensures |r| == (if |path| < 2 then |path| else 2) && r == path[|path| - |r|..]
  {
    var count := if |path| < 2 then |path| else 2;
    path[|path| - count..]
  }

  /** The context prefix: the page title, then the last two hierarchy entries. */
  function ContextParts(title: string, path: seq<string>): seq<string> {
    var page := if title != [] then ["Page: " + title] else [];
    if path != [] then page + ["Context: " + Join(LastParents(path), " > ")] else page
  }

  /** What `preprocess` returns. */
  function Preprocessed(content: string, title: string, path: seq<string>): string {
    var parts := ContextParts(title, path);
    var body := Trim(CleanBody(content));
    if parts != [] then Join(parts, ". ") + ". " + body else body
  }

  /**
   * `preprocess`: the body is rewritten step by step, the context parts are
   * collected, and the two are put together.
   */
  method Preprocess(content: string, pageTitle: string, hierarchyPath: seq<string>) returns (r: string)
    ensures r == Preprocessed(content, pageTitle, hierarchyPath)
  {
    var text := content;
    text := StripMarker(text);
    text := ReplaceReferences(text);
    text := RemoveTagMarks(text);
    var contextParts: seq<string> := [];
    if pageTitle != [] {
      contextParts := contextParts + ["Page: " + pageTitle];
    }
    assert contextParts == if pageTitle != [] then ["Page: " + pageTitle] else [];
    if hierarchyPath != [] {
      var parentCount := if |hierarchyPath| < 2 then |hierarchyPath| else 2;
      var relevantParents := hierarchyPath[|hierarchyPath| - parentCount..];
      if relevantParents != [] {
        contextParts := contextParts + ["Context: " + Join(relevantParents, " > ")];
      }
    }
    assert text == CleanBody(content);
    assert contextParts == ContextParts(pageTitle, hierarchyPath);
    if contextParts != [] {
      r := Join(contextParts, ". ") + ". " + Trim(text);
    } else {
      r := Trim(text);
    }
  }

  /**
   * The shape of the result: with neither title nor path, the trimmed body
   * alone; with a title only, "Page: <title>. <body>"; with a path only,
   * "Context: <last two entries joined by ' > '>. <body>"; with both, the
   * page part, then the context part, then the body.
   */
  lemma PreprocessedShape(content: string, title: string, path: seq<string>)
    ensures var body, context := Trim(CleanBody(content)), "Context: " + Join(LastParents(path), " > ");
      && (title == [] && path == [] ==> Preprocessed(content, title, path) == body)
      && (title != [] && path == [] ==> Preprocessed(content, title, path) == "Page: " + title + ". " + body)
      && (title == [] && path != [] ==> Preprocessed(content, title, path) == context + ". " + body)
      && (title != [] && path != [] ==>
            Preprocessed(content, title, path) == "Page: " + title + ". " + context + ". " + body)
  {
    if title != [] && path != [] {
      var page, context := "Page: " + title, "Context: " + Join(LastParents(path), " > ");
      var parts := [page, context];
      assert ContextParts(title, path) == parts;
      assert parts[1..] == [context];
      assert Join(parts, ". ") == page + ". " + context;
    }
  }

  /** Of a longer path only the last two entries are kept, in order. */
  lemma LastTwoParents(path: seq<string>)
    requires |path| >= 2
    ensures LastParents(path) == [path[|path| - 2], path[|path| - 1]]
  {
  }

  /** A leading marker and the whitespace after it are removed; the rest is kept. */
  lemma StripMarkerOfTask(k: nat, space: char, rest: string)
    requires k < |TaskMarkers| && IsWhitespace(space)
    ensures StripMarker(TaskMarkers[k] + [space] + rest) == TrimStart(rest)
  {
    var m := TaskMarkers[k];
    var t := m + [space] + rest;
    assert t[..|m|] == m && t[|m|] == space;
    var j := LeadingMarker(t).value;
    MarkersExclusive(t, j, k);
    assert t[|m|..] == [space] + rest;
    assert ([space] + rest)[1..] == rest;
  }

  /** At most one marker followed by whitespace starts a text. */
  lemma MarkersExclusive(t: string, j: nat, k: nat)
    requires j < |TaskMarkers| && k < |TaskMarkers|
    requires MarkerThenWhitespace(t, TaskMarkers[j]) && MarkerThenWhitespace(t, TaskMarkers[k])
    ensures j == k
  {
  }

  /** Text without a leading marker is not changed by the marker step. */
  lemma StripMarkerNone(t: string)
    requires forall k | 0 <= k < |TaskMarkers| :: !MarkerThenWhitespace(t, TaskMarkers[k])
    ensures StripMarker(t) == t
  {
  }

  /** Text without '[' passes the reference step unchanged. */
  lemma {:induction false} ReplaceReferencesPlain(s: string)
    requires Avoids(s, '[')
    ensures ReplaceReferences(s) == s
  {
    if s != [] {
      ReplaceReferencesPlain(s[1..]);
    }
  }

  /** A bracket reference's rendering "[[title]]" becomes its title, for a title without ']' or '['. */
  lemma ReferenceRenderingReplaced(r: PageReference, rest: string)
    requires !r.isTag && r.title != [] && Avoids(r.title, ']')
    ensures ReplaceReferences(r.ToString() + rest) == r.title + ReplaceReferences(rest)
  {
    var t := r.title;
    var s := r.ToString() + rest;
    assert s == "[[" + t + "]]" + rest;
    assert forall i | 0 <= i < |t| :: s[2 + i] == t[i];
    assert s[2 + |t|] == ']';
    CloseAtPast(s, 2, 2 + |t|);
    assert s[2..2 + |t|] == t;
    assert s[2 + |t| + 2..] == rest;
  }

  lemma {:induction false} CloseAtPast(s: string, from: nat, j: nat)
    requires from <= j < |s| && s[j] == ']' && forall i | from <= i < j :: s[i] != ']'
    ensures CloseAt(s, from) == j
    decreases j - from
  {
    if from < j {
      CloseAtPast(s, from + 1, j);
    }
  }

  /** Text without '#' passes the tag step unchanged. */
  lemma {:induction false} RemoveTagMarksPlain(s: string)
    requires Avoids(s, '#')
    ensures RemoveTagMarks(s) == s
  {
    if s != [] {
      RemoveTagMarksPlain(s[1..]);
    }
  }

  /** A tag's rendering "#title" becomes its title, for a title that starts with a word character and has no '#'. */
  lemma TagRenderingReplaced(r: PageReference)
    requires r.isTag && r.title != [] && IsWordChar(r.title[0]) && Avoids(r.title, '#')
    ensures RemoveTagMarks(r.ToString()) == r.title
  {
    var s := r.ToString();
    assert s == "#" + r.title;
    assert s[1..] == r.title;
    RemoveTagMarksPlain(r.title);
  }
}
