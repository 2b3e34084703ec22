// Validated identifiers, URLs, page references, block text and indent
// levels of the domain layer (src/domain/value_objects.rs).
module ValueObjects {
  import opened Base
  import opened Strings

  /** Identifier of a page; the validating constructor is NewPageId. */
  datatype PageId = PageId(value: string)

  /** The derived `Debug` of a page id: `PageId("…")` with the text escaped. */
  function DebugPageId(id: PageId): string {
    "PageId(" + DebugString(id.value) + ")"
  }

  /** A generated `page-<uuid>` id has nothing to escape, so its `Debug`
      text shows it as it is. */
  lemma DebugPageIdOfPlainId(id: PageId)
    requires forall i :: 0 <= i < |id.value| ==> !NeedsEscape(id.value[i])
    ensures DebugPageId(id) == "PageId(\"" + id.value + "\")"
  {
    EscapeDebugPlain(id.value);
  }

  /** A double quote in the id is escaped in the `Debug` text. */
  lemma DebugPageIdEscapesQuote()
    ensures DebugPageId(PageId("a\"b")) == "PageId(\"a\\\"b\")"
  {
    assert EscapeDebug("a\"b") == "a\\\"b";
  }

  /** Identifier of a block; the validating constructor is NewBlockId. */
  datatype BlockId = BlockId(value: string)

  function NewPageId(id: string): (r: Result<PageId, DomainError>)
    ensures r.Ok? <==> id != []
    ensures r.Ok? ==> r.value.value == id
    ensures r.Err? ==> r.error.InvalidValue?
  {
    if id == [] then Err(InvalidValue("PageId cannot be empty")) else Ok(PageId(id))
  }

  function NewBlockId(id: string): (r: Result<BlockId, DomainError>)
    ensures r.Ok? <==> id != []
    ensures r.Ok? ==> r.value.value == id
    ensures r.Err? ==> r.error.InvalidValue?
  {
    if id == [] then Err(InvalidValue("BlockId cannot be empty")) else Ok(BlockId(id))
  }

  /** A URL; NewUrl only admits text that starts with an HTTP scheme. */
  datatype Url = Url(value: string)

  predicate HasHttpScheme(s: string) {
    StartsWith(s, "http://") || StartsWith(s, "https://")
  }

  function NewUrl(url: string): (r: Result<Url, DomainError>)
    ensures r.Ok? <==> HasHttpScheme(url)
    ensures r.Ok? ==> r.value.value == url
    ensures url == [] ==> r == Err(InvalidValue("URL cannot be empty"))
    ensures r.Err? ==> r.error.InvalidValue?
  {
    if url == [] then Err(InvalidValue("URL cannot be empty"))
    else if !HasHttpScheme(url) then Err(InvalidValue("URL must start with http:// or https://"))
    else Ok(Url(url))
  }

  /** The text before the first occurrence of `pat` (all of `s` if none):
      the first item of `s.split(pat)`. */
  function FirstPiece(s: string, pat: string): (r: string)
    ensures |r| <= |s| && r == s[..|r|]
  {
    match Find(s, pat)
    case None => s
    case Some(i) => s[..i]
  }

  /** The text before the first '/': the first item of `s.split('/')`. */
  function BeforeSlash(s: string): (r: string)
    ensures |r| <= |s| && r == s[..|r|]
    ensures IndexOf(r, '/') == |r|
  {
    s[..IndexOf(s, '/')]
  }

  /**
   * `Url::domain`: the second piece of splitting at "://", cut at its
   * first '/'. None when the text holds no "://".
   */
  function Domain(u: Url): (r: Option<string>)
    ensures r.Some? ==> IndexOf(r.value, '/') == |r.value|
  {
    match Find(u.value, "://")
    case None => None
    case Some(i) => Some(BeforeSlash(FirstPiece(u.value[i + 3..], "://")))
  }

  /** Every URL NewUrl accepts has a domain. */
  lemma AcceptedUrlHasDomain(s: string)
    requires NewUrl(s).Ok?
    ensures Domain(NewUrl(s).value).Some?
  {
    var k := if StartsWith(s, "http://") then 4 else 5;
    assert s[k..k + 3] == "://";
    StartsWithAt(s, k, "://");
  }

  lemma BeforeSlashOfHost(h: string, t: string)
    requires IndexOf(h, '/') == |h|
    requires t == [] || t[0] == '/'
    ensures BeforeSlash(h + t) == h
  {
    var s := h + t;
    var i := IndexOf(s, '/');
    assert forall j :: 0 <= j < |h| ==> s[j] == h[j];
    if t != [] {
      assert s[|h|] == '/';
    }
    assert i == |h|;
  }

  /** A host without '/' (not ending in ':') followed by a path that is
      empty or starts with '/' is cut back to the host. */
  lemma HostBeforePath(h: string, rest: string)
    requires IndexOf(h, '/') == |h|
    requires h == [] || h[|h| - 1] != ':'
    requires rest == [] || rest[0] == '/'
    ensures BeforeSlash(FirstPiece(h + rest, "://")) == h
  {
    var s := h + rest;
    match Find(s, "://")
    case None =>
      BeforeSlashOfHost(h, rest);
    case Some(i) =>
      assert s[i..i + 3] == "://";
      assert s[i] == s[i..i + 3][0] && s[i + 1] == s[i..i + 3][1];
      HostBeforeColon(h, rest, i);
  }

  /** A ":/" in `h + rest` can only start after the host `h`. */
  lemma HostBeforeColon(h: string, rest: string, i: nat)
    requires IndexOf(h, '/') == |h|
    requires h == [] || h[|h| - 1] != ':'
    requires rest == [] || rest[0] == '/'
    requires i + 1 < |h + rest| && (h + rest)[i] == ':' && (h + rest)[i + 1] == '/'
    ensures BeforeSlash((h + rest)[..i]) == h
  {
    var s := h + rest;
    assert forall j :: 0 <= j < |h| ==> s[j] == h[j];
    assert i >= |h|;
    var p := s[..i];
    assert p == h + p[|h|..];
    if i > |h| {
      assert p[|h|] == s[|h|] == rest[0];
    }
    BeforeSlashOfHost(h, p[|h|..]);
  }


  lemma SchemeSeparator(scheme: string, t: string)
    requires scheme == "http" || scheme == "https"
    ensures Find(scheme + "://" + t, "://") == Some(|scheme|)
    ensures (scheme + "://" + t)[|scheme| + 3..] == t
  {
    var s := scheme + "://" + t;
    var k := |scheme|;
    assert s[k..k + 3] == "://";
    forall j | 0 <= j < k ensures !StartsWith(s[j..], "://") {
      StartsWithAt(s, j, "://");
      assert s[j] == scheme[j];
    }
    FindIsFirst(s, "://", k);
  }

  /**
   * The domain of "scheme://host/path..." is the host, for any host
   * without '/' and not ending in ':' and any path that is empty or starts
   * with '/' (e.g. "example.com" for "https://example.com/path/to/page").
   */
  lemma {:induction false} DomainOfHostAndPath(scheme: string, host: string, path: string)
    requires scheme == "http" || scheme == "https"
    requires IndexOf(host, '/') == |host|
    requires host == [] || host[|host| - 1] != ':'
    requires path == [] || path[0] == '/'
    ensures NewUrl(scheme + "://" + host + path).Ok?
    ensures Domain(Url(scheme + "://" + host + path)) == Some(host)
  {
    var s := scheme + "://" + host + path;
    assert s == scheme + "://" + (host + path);
    var prefix := scheme + "://";
    assert s[..|prefix|] == prefix;
    assert StartsWith(s, prefix);
    assert HasHttpScheme(s);
    SchemeSeparator(scheme, host + path);
    var f := Find(s, "://");
    assert f == Some(|scheme|);
    HostBeforePath(host, path);
    assert Domain(Url(s)) == Some(BeforeSlash(FirstPiece(s[|scheme| + 3..], "://")));
  }

  /** A reference to another page: "[[title]]" or "#title". */
  datatype PageReference = PageReference(title: string, isTag: bool) {
    predicate IsPageReference() { !isTag }

    /** `Display`: "#title" for a tag, "[[title]]" otherwise. */
    function ToString(): (r: string)
      ensures isTag ==> |r| == |title| + 1 && r[0] == '#' && r[1..] == title
      ensures !isTag ==> |r| == |title| + 4 && r[..2] == "[[" && r[2..|r| - 2] == title && r[|r| - 2..] == "]]"
    {
      if isTag then "#" + title else "[[" + title + "]]"
    }
  }

  function FromBrackets(title: string): (r: Result<PageReference, DomainError>)
    ensures r.Ok? <==> title != []
    ensures r.Ok? ==> r.value.title == title && !r.value.isTag && r.value.IsPageReference()
    ensures r.Err? ==> r.error.InvalidValue?
  {
    if title == [] then Err(InvalidValue("Page reference title cannot be empty"))
    else Ok(PageReference(title, false))
  }

  function FromTag(title: string): (r: Result<PageReference, DomainError>)
    ensures r.Ok? <==> title != []
    ensures r.Ok? ==> r.value.title == title && r.value.isTag && !r.value.IsPageReference()
    ensures r.Err? ==> r.error.InvalidValue?
  {
    if title == [] then Err(InvalidValue("Tag cannot be empty")) else Ok(PageReference(title, true))
  }

  /** Plain block text. */
  datatype BlockContent = BlockContent(text: string) {
    /** Empty once surrounding whitespace is trimmed. */
    predicate IsEmpty() { Trim(text) == [] }
  }

  lemma BlockContentEmptyIff(c: BlockContent)
    ensures c.IsEmpty() <==> AllWhitespace(c.text)
  {
    TrimEmptyIff(c.text);
  }

  /** Depth of a block in the outline, 0 for a root. */
  datatype IndentLevel = IndentLevel(level: nat)

  const RootLevel: IndentLevel := IndentLevel(0)

  function Decrement(l: IndentLevel): (r: Option<IndentLevel>)
    ensures r.None? <==> l.level == 0
    ensures r.Some? ==> r.value.level < l.level && Increment(r.value) == l
  {
    if l.level > 0 then Some(IndentLevel(l.level - 1)) else None
  }

  function Increment(l: IndentLevel): (r: IndentLevel)
    ensures r.level > l.level
  {
    IndentLevel(l.level + 1)
  }

  /** Decrement undoes Increment, so no level below the root exists. */
  lemma DecrementIncrement(l: IndentLevel)
    ensures Decrement(Increment(l)) == Some(l)
    ensures Decrement(RootLevel).None?
  {
  }
}
