// The Logseq markdown parser (src/infrastructure/parsers/logseq_markdown.rs):
// outline lines become (indent, text) entries, the entries become the
// blocks of a Page, and each block's text is scanned for URLs, [[page
// references]] and #tags.
module LogseqMarkdown {
  import opened Base
  import opened Strings
  import opened ValueObjects
  import opened Entities
  import opened BlockTree
  import opened Aggregates
  import opened Watcher

  /** `ParseError`; `Io` carries the message of a failed read. */
  datatype ParseError =
    | Io(msg: string)
    | InvalidMarkdown(msg: string)
    | Domain(error: DomainError)

  // ----- indentation ------------------------------------------------------------

  /** One indent unit: a tab, or two spaces. */
  predicate StartsUnit(s: string) {
    (s != [] && s[0] == '\t') || (|s| >= 2 && s[0] == ' ' && s[1] == ' ')
  }

  /** The number of indent units at the start of a line. */
  function LeadingUnits(s: string): nat
    decreases |s|
  {
    if s != [] && s[0] == '\t' then 1 + LeadingUnits(s[1..])
    else if |s| >= 2 && s[0] == ' ' && s[1] == ' ' then 1 + LeadingUnits(s[2..])
    else 0
  }

  /** The text of a sequence of indent units: true a tab, false two spaces. */
  function Indentation(units: seq<bool>): (r: string)
    ensures |r| >= |units|
  {
    if units == [] then [] else (if units[0] then "\t" else "  ") + Indentation(units[1..])
  }

  /** Any run of units followed by text that starts no unit counts as its length. */
  lemma {:induction false} LeadingUnitsOfIndentation(units: seq<bool>, rest: string)
    requires !StartsUnit(rest)
    ensures LeadingUnits(Indentation(units) + rest) == |units|
  {
    if units != [] {
      var u := if units[0] then "\t" else "  ";
      var s := Indentation(units) + rest;
      assert s == u + (Indentation(units[1..]) + rest);
      assert s[|u|..] == Indentation(units[1..]) + rest;
      LeadingUnitsOfIndentation(units[1..], rest);
    }
  }

  /**
   * `calculate_indent_level`, with a lone space ending the count: the
   * number of leading indent units.
   */
  method CalculateIndentLevel(line: string) returns (indent: nat)
    ensures indent == LeadingUnits(line)
  {
    indent := 0;
    var i := 0;
    while i < |line|
      invariant i <= |line|
      invariant indent + LeadingUnits(line[i..]) == LeadingUnits(line)
    {
      if line[i] == '\t' {
        assert line[i..][1..] == line[i + 1..];
        indent, i := indent + 1, i + 1;
      } else if line[i] == ' ' && i + 1 < |line| && line[i + 1] == ' ' {
        assert line[i..][2..] == line[i + 2..];
        indent, i := indent + 1, i + 2;
      } else {
        break;
      }
    }
  }

  /**
   * The count `calculate_indent_level` computes as written: a space always
   * consumes the character after it, and counts only when that character
   * is a space too.
   */
  function IndentAsWritten(s: string): nat
    decreases |s|
  {
    if s == [] then 0
    else if s[0] == '\t' then 1 + IndentAsWritten(s[1..])
    else if s[0] == ' ' then
      if |s| == 1 then 0 else (if s[1] == ' ' then 1 else 0) + IndentAsWritten(s[2..])
    else 0
  }

  /** `calculate_indent_level` exactly as written. */
  method CalculateIndentLevelAsWritten(line: string) returns (indent: nat)
    ensures indent == IndentAsWritten(line)
  {
    indent := 0;
    var i := 0;
    while i < |line|
      invariant i <= |line|
      invariant indent + IndentAsWritten(line[i..]) == IndentAsWritten(line)
    {
      var ch := line[i];
      if ch == '\t' {
        assert line[i..][1..] == line[i + 1..];
        indent, i := indent + 1, i + 1;
      } else if ch == ' ' {
        if i + 1 < |line| {
          assert line[i..][2..] == line[i + 2..];
          if line[i + 1] == ' ' {
            indent := indent + 1;
          }
          i := i + 2;
        } else {
          i := i + 1;
        }
      } else {
        break;
      }
    }
  }

  /** Both counts agree on whole units followed by anything but a space. */
  lemma {:induction false} IndentAsWrittenOnUnits(units: seq<bool>, rest: string)
    requires rest == [] || (rest[0] != ' ' && rest[0] != '\t')
    ensures IndentAsWritten(Indentation(units) + rest) == |units| == LeadingUnits(Indentation(units) + rest)
  {
    LeadingUnitsOfIndentation(units, rest);
    if units != [] {
      var u := if units[0] then "\t" else "  ";
      var s := Indentation(units) + rest;
      assert s == u + (Indentation(units[1..]) + rest);
      assert s[|u|..] == Indentation(units[1..]) + rest;
      IndentAsWrittenOnUnits(units[1..], rest);
    }
  }

  /**
   * A lone space swallows the next character and counting goes on: the
   * line " a  b" has no indentation, yet counts one level as written, so
   * the parser would make it a child of the block before it.
   */
  lemma IndentAsWrittenCountsPastText()
    ensures IndentAsWritten(" a  b") == 1
    ensures LeadingUnits(" a  b") == 0
  {
    assert " a  b"[2..] == "  b";
    assert "  b"[2..] == "b";
  }

  // ----- bullet markers ---------------------------------------------------------

  predicate IsBulletMarker(c: char) {
    c == '-' || c == '*' || c == '+'
  }

  /**
   * `extract_content`: leading whitespace goes; then a marker followed by a
   * space loses both, and a marker followed by anything else loses the
   * marker and the whitespace after it.
   */
  function ExtractContent(line: string): (r: string)
    ensures IsSuffix(r, line)
  {
    var t := TrimStart(line);
    var r := if MarkerThenSpace(t) then t[2..]
      else if t != [] && IsBulletMarker(t[0]) then TrimStart(t[1..])
      else t;
    assert IsSuffix(r, t) by {
      if !MarkerThenSpace(t) && t != [] && IsBulletMarker(t[0]) {
        SuffixOfSuffix(t, t[1..], r);
      }
    }
    SuffixOfSuffix(line, t, r);
    r
  }

  /** `starts_with("- ")`, `starts_with("* ")` or `starts_with("+ ")`. */
  predicate MarkerThenSpace(t: string) {
    |t| >= 2 && IsBulletMarker(t[0]) && t[1] == ' '
  }

  predicate IsSuffix(r: string, s: string) {
    |r| <= |s| && r == s[|s| - |r|..]
  }

  lemma SuffixOfSuffix(s: string, t: string, r: string)
    requires IsSuffix(t, s) && IsSuffix(r, t)
    ensures IsSuffix(r, s)
  {
    assert s[|s| - |t|..][|t| - |r|..] == s[|s| - |r|..];
  }

  /** Indentation, a marker and a space are removed, and nothing more. */
  lemma ExtractContentOfBullet(indent: string, marker: char, text: string)
    requires AllWhitespace(indent) && IsBulletMarker(marker)
    ensures ExtractContent(indent + [marker, ' '] + text) == text
  {
    var t := [marker, ' '] + text;
    assert indent + [marker, ' '] + text == indent + t;
    TrimStartOfWhitespace(indent, t);
    assert MarkerThenSpace(t) && t[2..] == text;
  }

  /** A line with no marker keeps its text after the leading whitespace. */
  lemma ExtractContentWithoutBullet(line: string)
    requires TrimStart(line) == [] || !IsBulletMarker(TrimStart(line)[0])
    ensures ExtractContent(line) == TrimStart(line)
  {
  }

  lemma {:induction false} TrimStartOfWhitespace(ws: string, rest: string)
    requires AllWhitespace(ws) && (rest == [] || !IsWhitespace(rest[0]))
    ensures TrimStart(ws + rest) == rest
  {
    if ws != [] {
      assert (ws + rest)[1..] == ws[1..] + rest;
      TrimStartOfWhitespace(ws[1..], rest);
    }
  }

  // ----- lines to entries -------------------------------------------------------

  /** The (indent, text) entry a line yields, when its text is not blank. */
  predicate Kept(line: string) {
    Trim(ExtractContent(line)) != []
  }

  function EntryOf(line: string): (nat, string) {
    (LeadingUnits(line), ExtractContent(line))
  }

  /** The entries of `parse_blocks`, line by line. */
  function Entries(lines: seq<string>): (r: seq<(nat, string)>)
    ensures |r| <= |lines|
  {
    EntriesUpTo(lines, |lines|)
  }

  /** The entries the first `n` lines give. */
  function EntriesUpTo(lines: seq<string>, n: nat): (r: seq<(nat, string)>)
    requires n <= |lines|
    ensures |r| <= n
  {
    KeptImages(lines, n, Kept, EntryOf)
  }

  /** The images under `f` of the first `n` elements that `keep` holds of, in order. */
  function KeptImages<T, U>(xs: seq<T>, n: nat, keep: T -> bool, f: T -> U): (r: seq<U>)
    requires n <= |xs|
    ensures |r| <= n
  {
    if n == 0 then []
    else KeptImages(xs, n - 1, keep, f) + if keep(xs[n - 1]) then [f(xs[n - 1])] else []
  }

  lemma {:induction false} KeptImagesFrom<T, U>(xs: seq<T>, n: nat, keep: T -> bool, f: T -> U)
    requires n <= |xs|
    ensures forall y | y in KeptImages(xs, n, keep, f) :: exists i :: 0 <= i < n && keep(xs[i]) && y == f(xs[i])
  {
    if n > 0 {
      KeptImagesFrom(xs, n - 1, keep, f);
      forall y | y in KeptImages(xs, n, keep, f)
        ensures exists i :: 0 <= i < n && keep(xs[i]) && y == f(xs[i])
      {
        if y !in KeptImages(xs, n - 1, keep, f) {
          assert keep(xs[n - 1]) && y == f(xs[n - 1]);
        }
      }
    }
  }

  lemma {:induction false} KeptImagesHas<T, U>(xs: seq<T>, n: nat, keep: T -> bool, f: T -> U)
    requires n <= |xs|
    ensures forall i | 0 <= i < n && keep(xs[i]) :: f(xs[i]) in KeptImages(xs, n, keep, f)
  {
    if n > 0 {
      KeptImagesHas(xs, n - 1, keep, f);
      forall i | 0 <= i < n && keep(xs[i]) ensures f(xs[i]) in KeptImages(xs, n, keep, f) {
        if i < n - 1 {
          assert f(xs[i]) in KeptImages(xs, n - 1, keep, f);
        }
      }
    }
  }

  /**
   * `parse_blocks`: blank lines, and lines whose text is blank once the
   * marker is gone, are skipped; every other line gives its indent and
   * text. It never fails, so the Result of the source is dropped here.
   */
  method ParseBlocks(lines: seq<string>) returns (blocks: seq<(nat, string)>)
    ensures blocks == Entries(lines)
  {
    blocks := [];
    for i := 0 to |lines|
      invariant blocks == EntriesUpTo(lines, i)
    {
      EntriesStep(lines, i);
      var kept, entry := ParseLine(lines[i]);
      blocks := blocks + if kept then [entry] else [];
    }
  }

  /** The body of the loop of `parse_blocks` for one line. */
  method ParseLine(line: string) returns (kept: bool, entry: (nat, string))
    ensures kept == Kept(line) && (kept ==> entry == EntryOf(line))
  {
    if Trim(line) == [] {
      BlankLineNotKept(line);
      return false, (0, "");
    }
    var indent := CalculateIndentLevel(line);
    var content := ExtractContent(line);
    kept, entry := Trim(content) != [], (indent, content);
  }

  lemma EntriesStep(lines: seq<string>, i: nat)
    requires i < |lines|
    ensures EntriesUpTo(lines, i + 1) == EntriesUpTo(lines, i) + if Kept(lines[i]) then [EntryOf(lines[i])] else []
  {
  }

  /** A blank line has blank text, so the first skip of `parse_blocks` is subsumed. */
  lemma BlankLineNotKept(line: string)
    requires Trim(line) == []
    ensures !Kept(line)
  {
    TrimEmptyIff(line);
    assert TrimStart(line) == [];
  }

  /** Every entry comes from a kept line, and its text is not blank. */
  lemma EntriesFromLines(lines: seq<string>)
    ensures forall e | e in Entries(lines) :: Trim(e.1) != [] && exists i :: 0 <= i < |lines| && Kept(lines[i]) && e == EntryOf(lines[i])
  {
    KeptImagesFrom(lines, |lines|, Kept, EntryOf);
  }

  /** Every kept line gives an entry. */
  lemma LinesGiveEntries(lines: seq<string>)
    ensures forall i | 0 <= i < |lines| && Kept(lines[i]) :: EntryOf(lines[i]) in Entries(lines)
  {
    KeptImagesHas(lines, |lines|, Kept, EntryOf);
  }

  // ----- URLs ---------------------------------------------------------------------

  /** The URL a word gives: the word without trailing punctuation, when that has an HTTP scheme. */
  function UrlOfWord(w: string): (r: Option<Url>)
    ensures r.Some? <==> HasHttpScheme(TrimEndPunctuation(w))
    ensures r.Some? ==> r.value.value == TrimEndPunctuation(w)
  {
    var cleaned := TrimEndPunctuation(w);
    if HasHttpScheme(cleaned) then
      match NewUrl(cleaned)
      case Ok(u) => Some(u)
      case Err(_) => None
    else None
  }

  function UrlsOfWords(ws: seq<string>): seq<Url> {
    if ws == [] then []
    else
      var u := UrlOfWord(ws[|ws| - 1]);
      UrlsOfWords(ws[..|ws| - 1]) + if u.Some? then [u.value] else []
  }

  /** The URLs of a block's text, in text order, repeats included. */
  function UrlsIn(content: string): seq<Url> {
    UrlsOfWords(Words(content))
  }

  lemma UrlsOfWordsSnoc(ws: seq<string>, i: nat)
    requires i < |ws|
    ensures var u := UrlOfWord(ws[i]);
      UrlsOfWords(ws[..i + 1]) == UrlsOfWords(ws[..i]) + if u.Some? then [u.value] else []
  {
    assert ws[..i + 1][..i] == ws[..i];
  }

  /** `extract_urls`. */
  method ExtractUrls(content: string) returns (urls: seq<Url>)
    ensures urls == UrlsIn(content)
  {
    var words := Words(content);
    urls := [];
    for i := 0 to |words|
      invariant urls == UrlsOfWords(words[..i])
    {
      UrlsOfWordsSnoc(words, i);
      var cleaned := TrimEndPunctuation(words[i]);
      if StartsWith(cleaned, "http://") || StartsWith(cleaned, "https://") {
        var u := NewUrl(cleaned);
        if u.Ok? {
          urls := urls + [u.value];
        }
      }
    }
    assert words[..|words|] == words;
  }

  /** A URL comes from a word exactly when that word, cleaned, has an HTTP scheme. */
  lemma {:induction false} UrlsOfWordsMembers(ws: seq<string>)
    ensures forall u :: u in UrlsOfWords(ws) <==> exists i :: 0 <= i < |ws| && UrlOfWord(ws[i]) == Some(u)
  {
    if ws != [] {
      var init := ws[..|ws| - 1];
      var last := UrlOfWord(ws[|ws| - 1]);
      UrlsOfWordsMembers(init);
      assert forall i | 0 <= i < |init| :: init[i] == ws[i];
      UrlsMembersStep(ws, UrlsOfWords(init), if last.Some? then [last.value] else []);
    }
  }

  lemma UrlsMembersStep(ws: seq<string>, prev: seq<Url>, extra: seq<Url>)
    requires ws != []
    requires forall u :: u in prev <==> exists i :: 0 <= i < |ws| - 1 && UrlOfWord(ws[i]) == Some(u)
    requires var last := UrlOfWord(ws[|ws| - 1]); extra == if last.Some? then [last.value] else []
    ensures forall u :: u in prev + extra <==> exists i :: 0 <= i < |ws| && UrlOfWord(ws[i]) == Some(u)
  {
    forall u ensures u in prev + extra <==> exists i :: 0 <= i < |ws| && UrlOfWord(ws[i]) == Some(u) {
      if exists i :: 0 <= i < |ws| && UrlOfWord(ws[i]) == Some(u) {
        var i :| 0 <= i < |ws| && UrlOfWord(ws[i]) == Some(u);
        if i == |ws| - 1 {
          assert u in extra;
        }
      }
    }
  }

  /**
   * Every URL of a text has an HTTP scheme and is a word of the text with
   * its trailing punctuation removed; every such word gives a URL.
   */
  lemma UrlsInMembers(content: string, u: Url)
    ensures u in UrlsIn(content) <==>
      HasHttpScheme(u.value) && exists w :: w in Words(content) && TrimEndPunctuation(w) == u.value
  {
    UrlsOfWordsCleaned(Words(content), u);
  }

  lemma UrlsOfWordsCleaned(ws: seq<string>, u: Url)
    ensures u in UrlsOfWords(ws) <==>
      HasHttpScheme(u.value) && exists w :: w in ws && TrimEndPunctuation(w) == u.value
  {
    UrlsOfWordsMembers(ws);
    if u in UrlsOfWords(ws) {
      var i :| 0 <= i < |ws| && UrlOfWord(ws[i]) == Some(u);
      assert ws[i] in ws;
    }
    if HasHttpScheme(u.value) && exists w :: w in ws && TrimEndPunctuation(w) == u.value {
      var w :| w in ws && TrimEndPunctuation(w) == u.value;
      var i :| 0 <= i < |ws| && ws[i] == w;
      assert UrlOfWord(ws[i]) == Some(u);
    }
  }

  /** A URL written as a word on its own, without trailing punctuation, is found as itself. */
  lemma UrlRoundTrip(u: Url)
    requires HasHttpScheme(u.value) && NoWhitespace(u.value)
    requires !IsAsciiPunctuation(u.value[|u.value| - 1])
    ensures UrlsIn(u.value) == [u]
  {
    WordsOfWord(u.value);
    assert UrlsOfWords([u.value]) == UrlsOfWords([]) + [u];
  }

  // ----- page references ----------------------------------------------------------

  /**
   * The state machine of `extract_page_references` over the rest of the
   * text: "[[" opens a reference (dropping what was collected), "]]" inside
   * one closes it and reports it when non-empty, and other characters
   * inside are collected.
   */
  function ScanBrackets(s: string, inBrackets: bool, current: string): seq<PageReference>
    decreases |s|
  {
    if s == [] then []
    else if s[0] == '[' && |s| > 1 && s[1] == '[' then ScanBrackets(s[2..], true, [])
    else if inBrackets && s[0] == ']' && |s| > 1 && s[1] == ']' then
      var found := if current != [] then BracketReference(current) else [];
      found + ScanBrackets(s[2..], false, [])
    else if inBrackets then ScanBrackets(s[1..], true, current + [s[0]])
    else ScanBrackets(s[1..], false, current)
  }

  function BracketReference(title: string): seq<PageReference> {
    match FromBrackets(title)
    case Ok(r) => [r]
    case Err(_) => []
  }

  /** The tag a word gives: "#" and a title that is non-empty once trailing punctuation goes. */
  function TagOfWord(w: string): (r: Option<PageReference>)
    ensures r.Some? ==> r.value.isTag && r.value.title != []
  {
    if |w| > 1 && w[0] == '#' then
      var tag := TrimEndPunctuation(w[1..]);
      if tag != [] then
        match FromTag(tag)
        case Ok(r) => Some(r)
        case Err(_) => None
      else None
    else None
  }

  function TagsOfWords(ws: seq<string>): seq<PageReference> {
    if ws == [] then []
    else
      var t := TagOfWord(ws[|ws| - 1]);
      TagsOfWords(ws[..|ws| - 1]) + if t.Some? then [t.value] else []
  }

  /** The references of a block's text: all [[...]] ones first, then the #tags. */
  function PageReferencesIn(content: string): seq<PageReference> {
    ScanBrackets(content, false, []) + TagsOfWords(Words(content))
  }

  /** `extract_page_references`: the bracket scan, then the tags of the words. */
  method ExtractPageReferences(content: string) returns (references: seq<PageReference>)
    ensures references == PageReferencesIn(content)
  {
    references := ScanReferences(content);
    var tags := ExtractTags(content);
    references := references + tags;
  }

  /** The first loop of `extract_page_references`, over the characters. */
  method ScanReferences(content: string) returns (references: seq<PageReference>)
    ensures references == ScanBrackets(content, false, [])
  {
    references := [];
    var current: string := [];
    var inBrackets := false;
    var i := 0;
    while i < |content|
      invariant i <= |content|
      invariant references + ScanBrackets(content[i..], inBrackets, current) == ScanBrackets(content, false, [])
      decreases |content| - i
    {
      var ch := content[i];
      ghost var rest := content[i..];
      if ch == '[' && i + 1 < |content| && content[i + 1] == '[' {
        assert rest[2..] == content[i + 2..];
        assert ScanBrackets(rest, inBrackets, current) == ScanBrackets(content[i + 2..], true, []);
        i := i + 2;
        inBrackets := true;
        current := [];
      } else if inBrackets && ch == ']' && i + 1 < |content| && content[i + 1] == ']' {
        assert rest[2..] == content[i + 2..];
        ghost var found := if current != [] then BracketReference(current) else [];
        assert ScanBrackets(rest, inBrackets, current) == found + ScanBrackets(content[i + 2..], false, []);
        i := i + 2;
        if current != [] {
          var r := FromBrackets(current);
          if r.Ok? {
            references := references + [r.value];
          }
        }
        inBrackets := false;
        current := [];
      } else if inBrackets {
        assert rest[1..] == content[i + 1..];
        assert ScanBrackets(rest, inBrackets, current) == ScanBrackets(content[i + 1..], true, current + [ch]);
        current := current + [ch];
        i := i + 1;
      } else {
        assert rest[1..] == content[i + 1..];
        assert ScanBrackets(rest, inBrackets, current) == ScanBrackets(content[i + 1..], false, current);
        i := i + 1;
      }
    }
  }

  /** The second loop of `extract_page_references`, over the words. */
  method ExtractTags(content: string) returns (tags: seq<PageReference>)
    ensures tags == TagsOfWords(Words(content))
  {
    var words := Words(content);
    tags := [];
    for j := 0 to |words|
      invariant tags == TagsOfWords(words[..j])
    {
      assert words[..j + 1][..j] == words[..j];
      var tag := TagIn(words[j]);
      tags := tags + if tag.Some? then [tag.value] else [];
    }
    assert words[..|words|] == words;
  }

  /** The tag test of `extract_page_references` for one word. */
  method TagIn(word: string) returns (tag: Option<PageReference>)
    ensures tag == TagOfWord(word)
  {
    tag := None;
    if StartsWith(word, "#") && |word| > 1 {
      var title := TrimEndPunctuation(word[1..]);
      if title != [] {
        var r := FromTag(title);
        if r.Ok? {
          tag := Some(r.value);
        }
      }
    }
  }

  /** Text without '[' moves the scan along without opening anything. */
  lemma {:induction false} ScanSkipsPlain(p: string, rest: string, current: string)
    requires '[' !in p
    ensures ScanBrackets(p + rest, false, current) == ScanBrackets(rest, false, current)
  {
    if p != [] {
      assert p[0] in p;
      assert (p + rest)[0] == p[0];
      assert (p + rest)[1..] == p[1..] + rest;
      ScanSkipsPlain(p[1..], rest, current);
      assert ScanBrackets(p + rest, false, current) == ScanBrackets(p[1..] + rest, false, current);
    } else {
      assert p + rest == rest;
    }
  }

  /** Inside a reference, text without brackets is collected. */
  lemma {:induction false} ScanCollects(t: string, rest: string, current: string)
    requires '[' !in t && ']' !in t
    ensures ScanBrackets(t + rest, true, current) == ScanBrackets(rest, true, current + t)
  {
    if t != [] {
      assert t[0] in t;
      assert (t + rest)[0] == t[0];
      assert (t + rest)[1..] == t[1..] + rest;
      ScanCollects(t[1..], rest, current + [t[0]]);
      assert current + [t[0]] + t[1..] == current + t;
    } else {
      assert t + rest == rest && current + t == current;
    }
  }

  /** "[[title]]" after plain text is reported, and the scan goes on after it. */
  lemma ScanFindsReference(p: string, t: string, rest: string)
    requires '[' !in p && t != [] && '[' !in t && ']' !in t
    ensures ScanBrackets(p + "[[" + t + "]]" + rest, false, []) == [PageReference(t, false)] + ScanBrackets(rest, false, [])
  {
    var s1 := "[[" + t + "]]" + rest;
    assert p + "[[" + t + "]]" + rest == p + s1;
    ScanSkipsPlain(p, s1, []);
    assert s1[2..] == t + ("]]" + rest);
    ScanCollects(t, "]]" + rest, []);
    assert ("]]" + rest)[2..] == rest;
    assert [] + t == t;
  }

  lemma {:induction false} TagsOfWordsNone(ws: seq<string>)
    requires forall i | 0 <= i < |ws| :: Avoids(ws[i], '#')
    ensures TagsOfWords(ws) == []
  {
    if ws != [] {
      var w := ws[|ws| - 1];
      TagsOfWordsNone(ws[..|ws| - 1]);
    }
  }

  /** Text without '#' has no tags. */
  lemma NoTagsWithoutHash(s: string)
    requires '#' !in s
    ensures TagsOfWords(Words(s)) == []
  {
    WordsAvoid(s, '#');
    TagsOfWordsNone(Words(s));
  }

  /**
   * A reference's own rendering, "[[title]]" or "#title", is read back as
   * that reference, for titles free of brackets and '#' (and, for a tag,
   * of whitespace and of trailing punctuation).
   */
  lemma ReferenceRoundTrip(r: PageReference)
    requires r.title != [] && '[' !in r.title && ']' !in r.title && '#' !in r.title
    requires r.isTag ==> NoWhitespace(r.title) && !IsAsciiPunctuation(r.title[|r.title| - 1])
    ensures PageReferencesIn(r.ToString()) == [r]
  {
    if r.isTag {
      TagRoundTrip(r);
    } else {
      BracketRoundTrip(r);
    }
  }

  lemma TagRoundTrip(r: PageReference)
    requires r.isTag && r.title != [] && '[' !in r.title && '#' !in r.title
    requires NoWhitespace(r.title) && !IsAsciiPunctuation(r.title[|r.title| - 1])
    ensures PageReferencesIn(r.ToString()) == [r]
  {
    var s := r.ToString();
    assert s == "#" + r.title;
    assert '[' !in s;
    ScanSkipsPlain(s, [], []);
    assert s + [] == s;
    TagWordRoundTrip(r);
  }

  /** "#title" is one word, and that word is read as the tag. */
  lemma TagWordRoundTrip(r: PageReference)
    requires r.isTag && r.title != [] && '#' !in r.title
    requires NoWhitespace(r.title) && !IsAsciiPunctuation(r.title[|r.title| - 1])
    ensures TagsOfWords(Words(r.ToString())) == [r]
  {
    var s := r.ToString();
    assert s == "#" + r.title;
    assert IsWord(s);
    WordsOfWord(s);
    assert s[1..] == r.title;
    assert TagOfWord(s) == Some(r);
    assert TagsOfWords([s]) == TagsOfWords([]) + [r];
  }

  lemma BracketRoundTrip(r: PageReference)
    requires !r.isTag && r.title != [] && '[' !in r.title && ']' !in r.title && '#' !in r.title
    ensures PageReferencesIn(r.ToString()) == [r]
  {
    var t := r.title;
    var s := r.ToString();
    ScanFindsReference([], t, []);
    assert [] + "[[" + t + "]]" + [] == s;
    assert '#' !in s;
    NoTagsWithoutHash(s);
  }

  // ----- the block hierarchy ------------------------------------------------------

  function Levels(entries: seq<(nat, string)>): (r: seq<nat>)
    ensures |r| == |entries| && forall t | 0 <= t < |entries| :: r[t] == entries[t].0
  {
    seq(|entries|, t requires 0 <= t < |entries| => entries[t].0)
  }

  /**
   * The parent stack of `build_hierarchy` after the first `n` entries, by
   * position: each indent level still open, mapped to the entry that
   * opened it. An entry opens its own level and closes every deeper one.
   */
  function OpenAt(levels: seq<nat>, n: nat): map<nat, nat>
    requires n <= |levels|
  {
    if n == 0 then map[]
    else
      var prev := OpenAt(levels, n - 1);
      var level := levels[n - 1];
      map l | l in prev.Keys + {level} && l <= level :: if l == level then n - 1 else prev[l]
  }

  /** Entry `n - 1` opens its own level, keeps the shallower ones and closes the deeper ones. */
  lemma OpenAtStep(levels: seq<nat>, n: nat)
    requires 0 < n <= |levels|
    ensures var level, open, prev := levels[n - 1], OpenAt(levels, n), OpenAt(levels, n - 1);
      && (forall l :: l in open <==> l == level || (l in prev && l < level))
      && open[level] == n - 1
      && (forall l | l in prev && l < level :: open[l] == prev[l])
  {
  }

  /** Each open level is mapped to an earlier entry at exactly that level. */
  lemma {:induction false} OpenAtBounds(levels: seq<nat>, n: nat)
    requires n <= |levels|
    ensures forall l | l in OpenAt(levels, n) :: OpenAt(levels, n)[l] < n && levels[OpenAt(levels, n)[l]] == l
  {
    if n > 0 {
      OpenAtBounds(levels, n - 1);
      OpenAtStep(levels, n);
      OpenAtBoundsStep(levels, n, OpenAt(levels, n), OpenAt(levels, n - 1));
    }
  }

  lemma OpenAtBoundsStep(levels: seq<nat>, n: nat, open: map<nat, nat>, prev: map<nat, nat>)
    requires 0 < n <= |levels|
    requires forall l | l in prev :: prev[l] < n - 1 && levels[prev[l]] == l
    requires var level := levels[n - 1];
      && (forall l :: l in open <==> l == level || (l in prev && l < level))
      && open[level] == n - 1
      && (forall l | l in prev && l < level :: open[l] == prev[l])
    ensures forall l | l in open :: open[l] < n && levels[open[l]] == l
  {
  }

  /**
   * A level is open exactly when some entry opened it and every later entry
   * is deeper; the stack maps it to that entry.
   */
  lemma {:induction false} OpenAtMeaning(levels: seq<nat>, n: nat)
    requires n <= |levels|
    ensures forall l | l in OpenAt(levels, n) :: forall t | OpenAt(levels, n)[l] < t < n :: levels[t] > l
    ensures forall j | 0 <= j < n && (forall t | j < t < n :: levels[t] > levels[j]) :: levels[j] in OpenAt(levels, n)
  {
    if n > 0 {
      OpenAtMeaning(levels, n - 1);
      OpenAtStep(levels, n);
      OpenAtLater(levels, n, OpenAt(levels, n), OpenAt(levels, n - 1));
      OpenAtComplete(levels, n, OpenAt(levels, n), OpenAt(levels, n - 1));
    }
  }

  lemma OpenAtLater(levels: seq<nat>, n: nat, open: map<nat, nat>, prev: map<nat, nat>)
    requires 0 < n <= |levels|
    requires forall l | l in prev :: forall t | prev[l] < t < n - 1 :: levels[t] > l
    requires var level := levels[n - 1];
      && (forall l :: l in open <==> l == level || (l in prev && l < level))
      && open[level] == n - 1
      && (forall l | l in prev && l < level :: open[l] == prev[l])
    ensures forall l | l in open :: forall t | open[l] < t < n :: levels[t] > l
  {
    forall l, t | l in open && open[l] < t < n ensures levels[t] > l {
      if t < n - 1 {
        assert l in prev && open[l] == prev[l];
      }
    }
  }

  lemma OpenAtComplete(levels: seq<nat>, n: nat, open: map<nat, nat>, prev: map<nat, nat>)
    requires 0 < n <= |levels|
    requires forall j | 0 <= j < n - 1 && (forall t | j < t < n - 1 :: levels[t] > levels[j]) :: levels[j] in prev
    requires forall l :: l in open <==> l == levels[n - 1] || (l in prev && l < levels[n - 1])
    ensures forall j | 0 <= j < n && (forall t | j < t < n :: levels[t] > levels[j]) :: levels[j] in open
  {
    forall j | 0 <= j < n && (forall t | j < t < n :: levels[t] > levels[j]) ensures levels[j] in open {
      if j < n - 1 {
        assert levels[n - 1] > levels[j];
        assert levels[j] in prev;
      }
    }
  }

  /** Entry `i` is indented below a level that is not open: it has no parent. */
  predicate Orphan(levels: seq<nat>, i: nat)
    requires i < |levels|
  {
    levels[i] > 0 && levels[i] - 1 !in OpenAt(levels, i)
  }

  /** How many of the first `n` entries come before the first orphan. */
  function AcceptedUpTo(levels: seq<nat>, n: nat): (k: nat)
    requires n <= |levels|
    ensures k <= n
    ensures forall t | 0 <= t < k :: !Orphan(levels, t)
    ensures k < n ==> Orphan(levels, k)
  {
    if n == 0 then 0
    else
      var k := AcceptedUpTo(levels, n - 1);
      if k < n - 1 then k else if Orphan(levels, n - 1) then n - 1 else n
  }

  /**
   * How many entries `build_hierarchy` turns into blocks: all of them, or
   * those before the first entry it refuses for lack of a parent.
   */
  function Accepted(levels: seq<nat>): (k: nat)
    ensures k <= |levels|
    ensures forall t | 0 <= t < k :: !Orphan(levels, t)
    ensures k < |levels| ==> Orphan(levels, k)
  {
    AcceptedUpTo(levels, |levels|)
  }

  /**
   * The parent of an indented entry: the nearest entry before it with a
   * smaller indent, which is exactly one level up.
   */
  function ParentIndex(levels: seq<nat>, i: nat): (j: nat)
    requires i < |levels| && levels[i] > 0 && !Orphan(levels, i)
    ensures j < i && levels[j] == levels[i] - 1
  {
    OpenAtBounds(levels, i);
    OpenAt(levels, i)[levels[i] - 1]
  }

  /** The parent entry is the nearest earlier entry one level up: every entry between is at least as deep. */
  lemma ParentIndexNearest(levels: seq<nat>, i: nat)
    requires i < |levels| && levels[i] > 0 && !Orphan(levels, i)
    ensures var j := ParentIndex(levels, i);
      forall t | j < t < i :: levels[t] >= levels[i]
  {
    OpenAtMeaning(levels, i);
  }

  /** The first entry is at level 0, and no entry is more than one level deeper than the one before. */
  predicate WellNested(levels: seq<nat>) {
    forall i | 0 <= i < |levels| :: NestedAt(levels, i)
  }

  predicate NestedAt(levels: seq<nat>, i: nat)
    requires i < |levels|
  {
    levels[i] <= if i == 0 then 0 else levels[i - 1] + 1
  }

  /** Once the first `n` entries are accepted, the open levels are those up to entry `n - 1`'s. */
  lemma {:induction false} OpenAtOfAccepted(levels: seq<nat>, n: nat)
    requires 0 < n <= |levels| && AcceptedUpTo(levels, n) == n
    ensures forall l :: l in OpenAt(levels, n) <==> l <= levels[n - 1]
  {
    assert AcceptedUpTo(levels, n - 1) == n - 1 && !Orphan(levels, n - 1);
    OpenAtStep(levels, n);
    if n > 1 {
      OpenAtOfAccepted(levels, n - 1);
    }
  }

  /** The first `n` entries are all accepted exactly when they are well nested. */
  lemma {:induction false} AcceptedUpToIffNested(levels: seq<nat>, n: nat)
    requires n <= |levels|
    ensures AcceptedUpTo(levels, n) == n <==> forall i | 0 <= i < n :: NestedAt(levels, i)
  {
    if n > 0 {
      AcceptedUpToIffNested(levels, n - 1);
      assert AcceptedUpTo(levels, n) == n <==> AcceptedUpTo(levels, n - 1) == n - 1 && !Orphan(levels, n - 1);
      assert (forall i | 0 <= i < n :: NestedAt(levels, i)) <==>
        (forall i | 0 <= i < n - 1 :: NestedAt(levels, i)) && NestedAt(levels, n - 1);
      if n == 1 {
        assert OpenAt(levels, 0) == map[];
        assert Orphan(levels, 0) <==> !NestedAt(levels, 0);
      } else if AcceptedUpTo(levels, n - 1) == n - 1 {
        OpenAtOfAccepted(levels, n - 1);
        assert Orphan(levels, n - 1) <==> levels[n - 1] > 0 && levels[n - 1] - 1 > levels[n - 2];
      }
    }
  }

  /** `build_hierarchy` accepts every entry exactly when the outline is well nested. */
  lemma AcceptedIffWellNested(levels: seq<nat>)
    ensures Accepted(levels) == |levels| <==> WellNested(levels)
  {
    AcceptedUpToIffNested(levels, |levels|);
  }

  /** The parent of entry `i` as an id, none for an entry at level 0. */
  function ParentIdOf(levels: seq<nat>, ids: seq<BlockId>, i: nat): Option<BlockId>
    requires i < Accepted(levels) && |levels| <= |ids|
  {
    if levels[i] == 0 then None else Some(ids[ParentIndex(levels, i)])
  }

  /** The ids of the level-0 entries among the first `i`, in order. */
  function RootIds(levels: seq<nat>, ids: seq<BlockId>, i: nat): seq<BlockId>
    requires i <= |levels| <= |ids|
  {
    if i == 0 then [] else RootIds(levels, ids, i - 1) + if levels[i - 1] == 0 then [ids[i - 1]] else []
  }

  /** The block `build_hierarchy` creates for entry `i`, before any child joins it. */
  function BlockFor(entries: seq<(nat, string)>, ids: seq<BlockId>, i: nat): Block
    requires i < Accepted(Levels(entries)) && |entries| <= |ids|
  {
    var e := entries[i];
    Block(ids[i], BlockContent(e.1), IndentLevel(e.0), ParentIdOf(Levels(entries), ids, i), [],
          AppendEach([], UrlsIn(e.1)), AppendEach([], PageReferencesIn(e.1)))
  }

  lemma BlockForLinks(entries: seq<(nat, string)>, ids: seq<BlockId>, i: nat)
    requires i < Accepted(Levels(entries)) && |entries| <= |ids|
    ensures var b := BlockFor(entries, ids, i);
      b.id == ids[i] && b.childIds == [] && b.parentId == ParentIdOf(Levels(entries), ids, i)
  {
  }

  /** The blocks of the first `k` entries, in order. */
  function BlocksFor(entries: seq<(nat, string)>, ids: seq<BlockId>, k: nat): (bs: seq<Block>)
    requires k <= Accepted(Levels(entries)) && |entries| <= |ids|
    ensures |bs| == k && forall t | 0 <= t < k :: bs[t] == BlockFor(entries, ids, t)
  {
    seq(k, t requires 0 <= t < k => BlockFor(entries, ids, t))
  }

  // ----- adding blocks in order ---------------------------------------------------

  function IdsOf(bs: seq<Block>): set<BlockId> {
    set t | 0 <= t < |bs| :: bs[t].id
  }

  /** Each block's declared parent is stored already or added before it. */
  predicate ParentsFirst(m0: BlockMap, bs: seq<Block>) {
    forall t | 0 <= t < |bs| && bs[t].parentId.Some? :: bs[t].parentId.value in m0 || bs[t].parentId.value in IdsOf(bs[..t])
  }

  /** New ids, distinct, and no child lists yet: what `add_block` accepts. */
  predicate FreshBlocks(m0: BlockMap, bs: seq<Block>) {
    && (forall t | 0 <= t < |bs| :: bs[t].id !in m0 && bs[t].childIds == [])
    && (forall t, u | 0 <= t < u < |bs| :: bs[t].id != bs[u].id)
  }

  /** The arena once each block has been added in turn. */
  function AddAll(m0: BlockMap, bs: seq<Block>): (m: BlockMap)
    requires ParentsFirst(m0, bs)
    ensures m.Keys == m0.Keys + IdsOf(bs)
  {
    if bs == [] then m0
    else
      var last := |bs| - 1;
      PrefixParentsFirst(m0, bs);
      var prev := AddAll(m0, bs[..last]);
      IdsOfSnoc(bs);
      AddedKeys(prev, bs[last]);
      AddedBlocks(prev, bs[last])
  }

  lemma PrefixParentsFirst(m0: BlockMap, bs: seq<Block>)
    requires bs != [] && ParentsFirst(m0, bs)
    ensures ParentsFirst(m0, bs[..|bs| - 1])
  {
    var init := bs[..|bs| - 1];
    forall t | 0 <= t < |init| && init[t].parentId.Some?
      ensures init[t].parentId.value in m0 || init[t].parentId.value in IdsOf(init[..t])
    {
      assert init[..t] == bs[..t] && init[t] == bs[t];
    }
  }

  lemma IdsOfSnoc(bs: seq<Block>)
    requires bs != []
    ensures IdsOf(bs) == IdsOf(bs[..|bs| - 1]) + {bs[|bs| - 1].id}
  {
    var init := bs[..|bs| - 1];
    forall x ensures x in IdsOf(bs) <==> x in IdsOf(init) || x == bs[|bs| - 1].id {
      if x in IdsOf(bs) {
        var t :| 0 <= t < |bs| && bs[t].id == x;
        if t < |init| {
          assert init[t].id == x;
        }
      }
      if x in IdsOf(init) {
        var t :| 0 <= t < |init| && init[t].id == x;
        assert bs[t].id == x;
      }
    }
  }

  lemma AddedKeys(m: BlockMap, b: Block)
    requires b.parentId.Some? ==> b.parentId.value in m
    ensures AddedBlocks(m, b).Keys == m.Keys + {b.id}
  {
  }

  /** The ids of the blocks that name `p` as their parent, in order. */
  function ChildrenIn(bs: seq<Block>, p: BlockId): (r: seq<BlockId>)
    ensures forall i | 0 <= i < |r| :: r[i] in IdsOf(bs)
  {
    if bs == [] then []
    else
      var last := |bs| - 1;
      IdsOfSnoc(bs);
      ChildrenIn(bs[..last], p) + if bs[last].parentId == Some(p) then [bs[last].id] else []
  }

  lemma {:induction false} ChildrenInNone(bs: seq<Block>, p: BlockId)
    requires forall t | 0 <= t < |bs| :: bs[t].parentId != Some(p)
    ensures ChildrenIn(bs, p) == []
  {
    if bs != [] {
      var init := bs[..|bs| - 1];
      assert forall t | 0 <= t < |init| :: init[t] == bs[t];
      ChildrenInNone(init, p);
    }
  }

  /**
   * What adding blocks in turn builds: each added block as given, its
   * child list the later blocks that name it, in order; the stored blocks
   * no added block names are unchanged.
   */
  lemma {:induction false} AddAllContents(m0: BlockMap, bs: seq<Block>)
    requires ParentsFirst(m0, bs) && FreshBlocks(m0, bs)
    ensures forall k | k in m0 && (forall t | 0 <= t < |bs| :: bs[t].parentId != Some(k)) :: AddAll(m0, bs)[k] == m0[k]
    ensures forall t | 0 <= t < |bs| :: AddAll(m0, bs)[bs[t].id] == bs[t].(childIds := ChildrenIn(bs, bs[t].id))
  {
    if bs != [] {
      var last := |bs| - 1;
      var init, b := bs[..last], bs[last];
      PrefixParentsFirst(m0, bs);
      assert FreshBlocks(m0, init);
      AddAllContents(m0, init);
      var prev := AddAll(m0, init);
      assert b.id !in IdsOf(init) by {
        forall t | 0 <= t < |init| ensures init[t].id != b.id {
          assert init[t] == bs[t];
        }
      }
      AddAllKeepsStored(m0, bs, prev);
      AddAllLinksAdded(m0, bs, prev);
    }
  }

  lemma AddAllKeepsStored(m0: BlockMap, bs: seq<Block>, prev: BlockMap)
    requires bs != [] && ParentsFirst(m0, bs) && FreshBlocks(m0, bs) && ParentsFirst(m0, bs[..|bs| - 1])
    requires prev == AddAll(m0, bs[..|bs| - 1]) && bs[|bs| - 1].id !in prev
    requires var init := bs[..|bs| - 1];
      forall k | k in m0 && (forall t | 0 <= t < |init| :: init[t].parentId != Some(k)) :: prev[k] == m0[k]
    ensures forall k | k in m0 && (forall t | 0 <= t < |bs| :: bs[t].parentId != Some(k)) :: AddAll(m0, bs)[k] == m0[k]
  {
    var last := |bs| - 1;
    var init, b := bs[..last], bs[last];
    var m := AddAll(m0, bs);
    assert m == AddedBlocks(prev, b);
    forall k | k in m0 && (forall t | 0 <= t < |bs| :: bs[t].parentId != Some(k)) ensures m[k] == m0[k] {
      forall t | 0 <= t < |init| ensures init[t].parentId != Some(k) {
        assert init[t] == bs[t];
      }
      AddedKeeps(prev, b, k);
    }
  }

  /** Adding `b` leaves a stored block that is not its parent as it was. */
  lemma AddedKeeps(prev: BlockMap, b: Block, k: BlockId)
    requires b.parentId.Some? ==> b.parentId.value in prev
    requires k in prev && k != b.id && b.parentId != Some(k)
    ensures AddedBlocks(prev, b)[k] == prev[k]
  {
  }

  lemma AddAllLinksAdded(m0: BlockMap, bs: seq<Block>, prev: BlockMap)
    requires bs != [] && ParentsFirst(m0, bs) && FreshBlocks(m0, bs) && ParentsFirst(m0, bs[..|bs| - 1])
    requires prev == AddAll(m0, bs[..|bs| - 1]) && bs[|bs| - 1].id !in prev
    requires var init := bs[..|bs| - 1];
      forall t | 0 <= t < |init| :: prev[init[t].id] == init[t].(childIds := ChildrenIn(init, init[t].id))
    ensures forall t | 0 <= t < |bs| :: AddAll(m0, bs)[bs[t].id] == bs[t].(childIds := ChildrenIn(bs, bs[t].id))
  {
    var last := |bs| - 1;
    var init, b := bs[..last], bs[last];
    var m := AddAll(m0, bs);
    assert m == AddedBlocks(prev, b);
    forall t | 0 <= t < |bs| ensures m[bs[t].id] == bs[t].(childIds := ChildrenIn(bs, bs[t].id)) {
      if t == last {
        AddedFacts(prev, b);
        NoChildrenYet(m0, bs);
      } else {
        assert init[t] == bs[t];
        assert bs[t].id in IdsOf(init);
        forall u | 0 <= u < |init| ensures init[u].id != b.id {
          assert init[u] == bs[u];
        }
        AddedLinks(bs, prev, bs[t]);
      }
    }
  }

  /** Adding the last block appends it to its parent's child list and leaves every other listed block as it was. */
  lemma AddedLinks(bs: seq<Block>, prev: BlockMap, x: Block)
    requires bs != []
    requires var init, b := bs[..|bs| - 1], bs[|bs| - 1];
      && (b.parentId.Some? ==> b.parentId.value in prev)
      && b.id !in prev && x.id in prev && (forall u | 0 <= u < |init| :: init[u].id != b.id)
      && prev[x.id] == x.(childIds := ChildrenIn(init, x.id))
    ensures AddedBlocks(prev, bs[|bs| - 1])[x.id] == x.(childIds := ChildrenIn(bs, x.id))
  {
    var init, b := bs[..|bs| - 1], bs[|bs| - 1];
    AddedFacts(prev, b);
    assert b.id !in IdsOf(init);
  }

  /** No block names the last one as its parent. */
  lemma NoChildrenYet(m0: BlockMap, bs: seq<Block>)
    requires bs != [] && ParentsFirst(m0, bs) && FreshBlocks(m0, bs)
    ensures ChildrenIn(bs, bs[|bs| - 1].id) == []
  {
    var id := bs[|bs| - 1].id;
    assert forall u | 0 <= u < |bs| :: bs[u].parentId != Some(id);
    ChildrenInNone(bs, id);
  }

  // ----- build_hierarchy ----------------------------------------------------------

  /** The blocks of accepted entries can be added in order, each new to the arena. */
  lemma BlocksForAddable(m0: BlockMap, entries: seq<(nat, string)>, ids: seq<BlockId>, k: nat)
    requires k <= Accepted(Levels(entries)) && |entries| <= |ids|
    requires NoDuplicates(ids) && forall t | 0 <= t < |ids| :: ids[t] !in m0
    ensures ParentsFirst(m0, BlocksFor(entries, ids, k)) && FreshBlocks(m0, BlocksFor(entries, ids, k))
  {
    var bs := BlocksFor(entries, ids, k);
    forall t | 0 <= t < k ensures bs[t].id == ids[t] && bs[t].childIds == [] {
      BlockForLinks(entries, ids, t);
    }
    forall t | 0 <= t < k && bs[t].parentId.Some? ensures bs[t].parentId.value in IdsOf(bs[..t]) {
      var j := ParentIndex(Levels(entries), t);
      assert bs[t].parentId.value == ids[j];
      assert bs[..t][j].id == ids[j];
    }
  }

  /** Entry `t`'s block names entry `j` as its parent exactly when `j` is its parent entry. */
  lemma BlocksForParent(entries: seq<(nat, string)>, ids: seq<BlockId>, k: nat, t: nat, j: nat)
    requires k <= Accepted(Levels(entries)) && |entries| <= |ids| && NoDuplicates(ids)
    requires t < k && j < |ids|
    ensures BlocksFor(entries, ids, k)[t].parentId == Some(ids[j]) <==>
      Levels(entries)[t] > 0 && ParentIndex(Levels(entries), t) == j
  {
    BlockForLinks(entries, ids, t);
    var levels := Levels(entries);
    assert BlocksFor(entries, ids, k)[t] == BlockFor(entries, ids, t);
    if levels[t] > 0 {
      var p := ParentIndex(levels, t);
      if ids[p] == ids[j] {
        assert p == j;
      }
    }
  }

  /** The last block of a fitting sequence is new to, and has its parent in, the arena before it. */
  lemma AddAllLast(m0: BlockMap, bs: seq<Block>)
    requires bs != [] && ParentsFirst(m0, bs) && FreshBlocks(m0, bs)
    ensures var init, b := bs[..|bs| - 1], bs[|bs| - 1];
      && ParentsFirst(m0, init)
      && b.id !in AddAll(m0, init)
      && (b.parentId.Some? ==> b.parentId.value in AddAll(m0, init))
      && AddAll(m0, bs) == AddedBlocks(AddAll(m0, init), b)
  {
    var init, b := bs[..|bs| - 1], bs[|bs| - 1];
    PrefixParentsFirst(m0, bs);
    forall t | 0 <= t < |init| ensures init[t].id != b.id {
      assert init[t] == bs[t];
    }
    if b.parentId.Some? && b.parentId.value !in m0 {
      var t :| 0 <= t < |init| && init[t].id == b.parentId.value;
    }
  }

  /** One more accepted entry: its block is new, its parent is stored, and adding it extends the arena. */
  lemma AddStep(m0: BlockMap, entries: seq<(nat, string)>, ids: seq<BlockId>, i: nat)
    requires i < Accepted(Levels(entries)) && |entries| <= |ids|
    requires NoDuplicates(ids) && forall t | 0 <= t < |ids| :: ids[t] !in m0
    ensures ParentsFirst(m0, BlocksFor(entries, ids, i)) && ParentsFirst(m0, BlocksFor(entries, ids, i + 1))
    ensures var b, prev := BlockFor(entries, ids, i), AddAll(m0, BlocksFor(entries, ids, i));
      && b.id !in prev
      && (b.parentId.Some? ==> b.parentId.value in prev)
      && AddAll(m0, BlocksFor(entries, ids, i + 1)) == AddedBlocks(prev, b)
  {
    BlocksForAddable(m0, entries, ids, i + 1);
    var bs' := BlocksFor(entries, ids, i + 1);
    assert bs'[..i] == BlocksFor(entries, ids, i);
    AddAllLast(m0, bs');
  }

  /** The parent stack by id: each open level mapped to the id of the entry that opened it. */
  function IdStack(open: map<nat, nat>, ids: seq<BlockId>): map<nat, BlockId> {
    map l | l in open && open[l] < |ids| :: ids[open[l]]
  }

  /** `parent_stack.retain(|level, _| *level <= n)`. */
  function Retained(stack: map<nat, BlockId>, n: nat): (r: map<nat, BlockId>)
    ensures forall l :: l in r <==> l in stack && l <= n
  {
    map l | l in stack && l <= n :: stack[l]
  }

  /** Inserting entry `i` at its level and dropping deeper levels gives the next stack. */
  lemma StackStep(levels: seq<nat>, ids: seq<BlockId>, i: nat)
    requires i < |levels| <= |ids|
    ensures var prev := IdStack(OpenAt(levels, i), ids);
      IdStack(OpenAt(levels, i + 1), ids) == Retained(prev[levels[i] := ids[i]], levels[i])
  {
    OpenAtStep(levels, i + 1);
  }

  lemma ParentIndexIsOpen(levels: seq<nat>, i: nat)
    requires i < |levels| && levels[i] > 0 && !Orphan(levels, i)
    ensures levels[i] - 1 in OpenAt(levels, i) && ParentIndex(levels, i) == OpenAt(levels, i)[levels[i] - 1]
  {
  }

  /** The stack holds the parent of a non-orphan entry under the level above it. */
  lemma ParentOnStack(levels: seq<nat>, ids: seq<BlockId>, i: nat)
    requires i < |levels| <= |ids| && levels[i] > 0 && !Orphan(levels, i)
    ensures var stack := IdStack(OpenAt(levels, i), ids);
      levels[i] - 1 in stack && stack[levels[i] - 1] == ids[ParentIndex(levels, i)]
  {
    ParentIndexIsOpen(levels, i);
    IdStackAt(OpenAt(levels, i), ids, levels[i] - 1);
  }

  lemma IdStackKeys(open: map<nat, nat>, ids: seq<BlockId>, l: nat)
    requires l in IdStack(open, ids)
    ensures l in open
  {
  }

  lemma IdStackAt(open: map<nat, nat>, ids: seq<BlockId>, l: nat)
    requires l in open && open[l] < |ids|
    ensures l in IdStack(open, ids) && IdStack(open, ids)[l] == ids[open[l]]
  {
  }

  /** An entry whose level above is not on the stack is the first one refused. */
  lemma MissingParentRefused(levels: seq<nat>, ids: seq<BlockId>, i: nat)
    requires i <= Accepted(levels) && i < |levels| <= |ids| && levels[i] > 0
    requires levels[i] - 1 !in IdStack(OpenAt(levels, i), ids)
    ensures Accepted(levels) == i
  {
    var open := OpenAt(levels, i);
    var l: nat := levels[i] - 1;
    if l in open {
      OpenAtBounds(levels, i);
      IdStackAt(open, ids, l);
    }
    assert Orphan(levels, i);
  }

  /**
   * What the stack lookup of `build_hierarchy` decides for entry `i` at
   * `level`: a missing level above refuses exactly this entry; otherwise
   * the entry is accepted and the stack yields its parent.
   */
  lemma StackLookup(levels: seq<nat>, ids: seq<BlockId>, i: nat, stack: map<nat, BlockId>, level: nat)
    requires i <= Accepted(levels) && i < |levels| <= |ids| && level == levels[i]
    requires stack == IdStack(OpenAt(levels, i), ids)
    ensures level > 0 && level - 1 !in stack ==> Accepted(levels) == i
    ensures level == 0 || level - 1 in stack ==> i < Accepted(levels)
    ensures level > 0 && level - 1 in stack ==> !Orphan(levels, i) && stack[level - 1] == ids[ParentIndex(levels, i)]
  {
    if level > 0 && level - 1 !in stack {
      MissingParentRefused(levels, ids, i);
    } else if level > 0 {
      IdStackKeys(OpenAt(levels, i), ids, level - 1);
      assert !Orphan(levels, i);
      ParentOnStack(levels, ids, i);
    }
  }

  /** The block `build_hierarchy` assembles for an accepted entry is BlockFor's. */
  lemma AssembledBlock(entries: seq<(nat, string)>, ids: seq<BlockId>, i: nat, parent: Option<BlockId>)
    requires i < Accepted(Levels(entries)) && |entries| <= |ids|
    requires parent == ParentIdOf(Levels(entries), ids, i)
    ensures var e := entries[i];
      BlockFor(entries, ids, i) ==
        Block(ids[i], BlockContent(e.1), IndentLevel(e.0), parent, [], AppendEach([], UrlsIn(e.1)), AppendEach([], PageReferencesIn(e.1)))
  {
  }

  /** The loop of `build_hierarchy` that adds each URL to the new block. */
  method AttachUrls(b: Block, urls: seq<Url>) returns (r: Block)
    ensures r == b.(urls := AppendEach(b.urls, urls))
  {
    r := b;
    for j := 0 to |urls|
      invariant r == b.(urls := AppendEach(b.urls, urls[..j]))
    {
      assert urls[..j + 1][..j] == urls[..j];
      r := AddUrl(r, urls[j]);
    }
    assert urls[..|urls|] == urls;
  }

  /** The loop of `build_hierarchy` that adds each page reference to the new block. */
  method AttachReferences(b: Block, references: seq<PageReference>) returns (r: Block)
    ensures r == b.(pageReferences := AppendEach(b.pageReferences, references))
  {
    r := b;
    for j := 0 to |references|
      invariant r == b.(pageReferences := AppendEach(b.pageReferences, references[..j]))
    {
      assert references[..j + 1][..j] == references[..j];
      r := AddPageReference(r, references[j]);
    }
    assert references[..|references|] == references;
  }

  /** The block `build_hierarchy` creates for one entry, with its URLs and page references. */
  method NewBlock(entry: (nat, string), id: BlockId, parent: Option<BlockId>) returns (b: Block)
    ensures b == Block(id, BlockContent(entry.1), IndentLevel(entry.0), parent, [],
                       AppendEach([], UrlsIn(entry.1)), AppendEach([], PageReferencesIn(entry.1)))
  {
    var urls := ExtractUrls(entry.1);
    var references := ExtractPageReferences(entry.1);
    b := Block(id, BlockContent(entry.1), IndentLevel(entry.0), parent, [], [], []);
    b := AttachUrls(b, urls);
    b := AttachReferences(b, references);
  }

  /** `add_block` on a block it accepts: a new id, no children yet and a stored parent. */
  method AddFresh(page: Page, b: Block)
    requires page.Valid() && b.id !in page.blocks && b.childIds == []
    requires b.parentId.Some? ==> b.parentId.value in page.blocks
    modifies page
    ensures page.Valid() && page.id == old(page.id) && page.title == old(page.title)
    ensures page.blocks == AddedBlocks(old(page.blocks), b)
    ensures page.rootIds == old(page.rootIds) + if b.parentId.None? then [b.id] else []
  {
    var added := page.AddBlock(b);
    assert added.Ok?;
  }

  /** The block of an accepted entry joins the arena of the blocks before it. */
  lemma EntryAddable(m0: BlockMap, entries: seq<(nat, string)>, ids: seq<BlockId>, i: nat, b: Block)
    requires i < Accepted(Levels(entries)) && |entries| <= |ids|
    requires NoDuplicates(ids) && forall t | 0 <= t < |ids| :: ids[t] !in m0
    requires b == BlockFor(entries, ids, i)
    ensures ParentsFirst(m0, BlocksFor(entries, ids, i)) && ParentsFirst(m0, BlocksFor(entries, ids, i + 1))
    ensures var prev := AddAll(m0, BlocksFor(entries, ids, i));
      && b.id !in prev && b.childIds == []
      && (b.parentId.Some? ==> b.parentId.value in prev)
      && AddAll(m0, BlocksFor(entries, ids, i + 1)) == AddedBlocks(prev, b)
    ensures b.parentId.None? <==> entries[i].0 == 0
  {
    AddStep(m0, entries, ids, i);
    BlockForLinks(entries, ids, i);
  }

  /** One more entry extends the root list by its id when it is at level 0. */
  lemma RootIdsStep(roots0: seq<BlockId>, levels: seq<nat>, ids: seq<BlockId>, i: nat)
    requires i < |levels| <= |ids|
    ensures roots0 + RootIds(levels, ids, i + 1) ==
      (roots0 + RootIds(levels, ids, i)) + if levels[i] == 0 then [ids[i]] else []
  {
    assert RootIds(levels, ids, i + 1) == RootIds(levels, ids, i) + if levels[i] == 0 then [ids[i]] else [];
  }

  /**
   * One round of the loop of `build_hierarchy`: the entry at `i` either
   * finds its parent on the stack and joins the page, or is the first
   * orphan and stops the build.
   */
  method BuildStep(page: Page, entries: seq<(nat, string)>, ids: seq<BlockId>, i: nat, stack: map<nat, BlockId>,
                   ghost m0: BlockMap, ghost roots0: seq<BlockId>)
    returns (stack': map<nat, BlockId>, orphan: bool)
    requires i < |entries| <= |ids| && i <= Accepted(Levels(entries))
    requires NoDuplicates(ids) && forall t | 0 <= t < |ids| :: ids[t] !in m0
    requires page.Valid() && ParentsFirst(m0, BlocksFor(entries, ids, i))
    requires page.blocks == AddAll(m0, BlocksFor(entries, ids, i))
    requires page.rootIds == roots0 + RootIds(Levels(entries), ids, i)
    requires stack == IdStack(OpenAt(Levels(entries), i), ids)
    modifies page
    ensures page.Valid() && page.id == old(page.id) && page.title == old(page.title)
    ensures orphan <==> Accepted(Levels(entries)) == i
    ensures orphan ==> page.blocks == old(page.blocks) && page.rootIds == old(page.rootIds)
    ensures !orphan ==> && ParentsFirst(m0, BlocksFor(entries, ids, i + 1))
                        && page.blocks == AddAll(m0, BlocksFor(entries, ids, i + 1))
                        && page.rootIds == roots0 + RootIds(Levels(entries), ids, i + 1)
                        && stack' == IdStack(OpenAt(Levels(entries), i + 1), ids)
  {
    ghost var levels := Levels(entries);
    var level := entries[i].0;
    StackLookup(levels, ids, i, stack, level);
    var parent: Option<BlockId> := None;
    if level > 0 {
      if level - 1 !in stack {
        return stack, true;
      }
      parent := Some(stack[level - 1]);
    }
    var block := NewBlock(entries[i], ids[i], parent);
    AssembledBlock(entries, ids, i, parent);
    EntryAddable(m0, entries, ids, i, block);
    AddFresh(page, block);
    RootIdsStep(roots0, levels, ids, i);
    StackStep(levels, ids, i);
    stack' := Retained(stack[level := ids[i]], level);
    orphan := false;
  }

  /**
   * `build_hierarchy`: each entry becomes a block with a fresh id from
   * `ids`, a root at level 0 and otherwise a child of the entry that opened
   * the level above; the first entry with no such entry stops the build
   * with an error, leaving the blocks added so far.
   */
  method BuildHierarchy(page: Page, entries: seq<(nat, string)>, ids: seq<BlockId>) returns (res: Result<(), ParseError>)
    requires page.Valid()
    requires |entries| <= |ids| && NoDuplicates(ids) && forall t | 0 <= t < |ids| :: ids[t] !in page.blocks
    modifies page
    ensures page.Valid() && page.id == old(page.id) && page.title == old(page.title)
    ensures var levels := Levels(entries); var k := Accepted(levels);
      && (res.Ok? <==> k == |entries|)
      && (res.Err? ==> res.error == InvalidMarkdown("No parent block found for indent level " + NatToString(levels[k])))
      && ParentsFirst(old(page.blocks), BlocksFor(entries, ids, k))
      && page.blocks == AddAll(old(page.blocks), BlocksFor(entries, ids, k))
      && page.rootIds == old(page.rootIds) + RootIds(levels, ids, k)
  {
    ghost var levels := Levels(entries);
    ghost var m0 := page.blocks;
    ghost var roots0 := page.rootIds;
    var stack: map<nat, BlockId> := map[];
    var i := 0;
    BlocksForAddable(m0, entries, ids, 0);
    while i < |entries|
      invariant i <= Accepted(levels)
      invariant page.Valid() && page.id == old(page.id) && page.title == old(page.title)
      invariant ParentsFirst(m0, BlocksFor(entries, ids, i))
      invariant page.blocks == AddAll(m0, BlocksFor(entries, ids, i))
      invariant page.rootIds == roots0 + RootIds(levels, ids, i)
      invariant stack == IdStack(OpenAt(levels, i), ids)
    {
      var orphan;
      stack, orphan := BuildStep(page, entries, ids, i, stack, m0, roots0);
      if orphan {
        return Err(InvalidMarkdown("No parent block found for indent level " + NatToString(entries[i].0)));
      }
      i := i + 1;
    }
    return Ok(());
  }

  /**
   * `parse_content`: the lines of the text become entries, and the entries
   * a fresh page's blocks. The page is returned exactly when the indents
   * are well nested (every entry at most one level below the one before,
   * the first at level 0); otherwise the first orphan's level is reported.
   * Ids for the blocks come from `ids`, standing in for fresh UUIDs.
   */
  method ParseContent(content: string, pageId: PageId, title: string, ids: seq<BlockId>)
    returns (res: Result<PageData, ParseError>)
    requires |Lines(content)| <= |ids| && NoDuplicates(ids)
    ensures var entries := Entries(Lines(content)); var levels := Levels(entries);
      && (res.Ok? <==> WellNested(levels))
      && (Accepted(levels) < |levels| ==>
            res == Err(InvalidMarkdown("No parent block found for indent level " + NatToString(levels[Accepted(levels)]))))
      && (res.Ok? ==> && ParentsFirst(map[], BlocksFor(entries, ids, |entries|))
                      && res.value == PageData(pageId, title, AddAll(map[], BlocksFor(entries, ids, |entries|)),
                                               RootIds(levels, ids, |entries|))
                      && WellFormed(res.value))
  {
    var page := new Page(pageId, title);
    var entries := ParseBlocks(Lines(content));
    var built := BuildHierarchy(page, entries, ids);
    AcceptedIffWellNested(Levels(entries));
    if built.Err? {
      return Err(built.error);
    }
    page.ValidIsWellFormed();
    return Ok(page.Data());
  }

  /** What `parse_content` makes of a text: the page of its blocks, or the
      error for the first entry without a parent. */
  ghost function ParseOutcome(content: string, pageId: PageId, title: string, ids: seq<BlockId>): Result<PageData, ParseError>
    requires |Lines(content)| <= |ids| && NoDuplicates(ids)
  {
    var entries := Entries(Lines(content));
    var levels := Levels(entries);
    AcceptedIffWellNested(levels);
    if WellNested(levels) then
      BlocksForAddable(map[], entries, ids, |entries|);
      Ok(PageData(pageId, title, AddAll(map[], BlocksFor(entries, ids, |entries|)), RootIds(levels, ids, |entries|)))
    else
      Err(InvalidMarkdown("No parent block found for indent level " + NatToString(levels[Accepted(levels)])))
  }

  /** What `parse_file` makes of a file: its text, or the error reading it,
      parsed under the file stem as title and a fresh page id. */
  ghost function ParsedFile(path: Path, content: Result<string, string>, pageId: PageId, ids: seq<BlockId>): Result<PageData, ParseError>
    requires content.Ok? ==> |Lines(content.value)| <= |ids| && NoDuplicates(ids)
  {
    if content.Err? then Err(Io(content.error))
    else if FileStem(path).None? then Err(InvalidMarkdown("Invalid filename"))
    else ParseOutcome(content.value, pageId, FileStem(path).value, ids)
  }

  /** `parse_file`. Reading the file is the `content` parameter (the text or
      the I/O error's message); the fresh `page-<uuid>` id and the block ids
      are parameters too. A parsed page is a well-formed tree titled with
      the file stem. */
  method ParseFile(path: Path, content: Result<string, string>, pageId: PageId, ids: seq<BlockId>)
    returns (res: Result<PageData, ParseError>)
    requires content.Ok? ==> |Lines(content.value)| <= |ids| && NoDuplicates(ids)
    ensures res == ParsedFile(path, content, pageId, ids)
    ensures res.Ok? ==> WellFormed(res.value) && res.value.id == pageId && FileStem(path) == Some(res.value.title)
    ensures res.Err? && content.Ok? && FileStem(path).Some? ==> res.error.InvalidMarkdown?
  {
    if content.Err? {
      return Err(Io(content.error));
    }
    var title := FileStem(path);
    if title.None? {
      return Err(InvalidMarkdown("Invalid filename"));
    }
    res := ParseContent(content.value, pageId, title.value, ids);
    AcceptedIffWellNested(Levels(Entries(Lines(content.value))));
  }
}
