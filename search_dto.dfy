// Search requests and the result records of the query use cases
// (src/application/dto/search.rs). Scores are integer tenths: the
// floating-point scores 1.0, 0.9, 0.8 and 0.7 become 10, 9, 8 and 7.
module SearchDto {
  import opened Base
  import opened ValueObjects

  datatype SearchType = Traditional | Semantic

  datatype ResultType = PagesOnly | BlocksOnly | UrlsOnly | All

  datatype SearchRequest = SearchRequest(
    query: string,
    searchType: SearchType,
    resultType: ResultType,
    pageFilters: Option<seq<PageId>>)

  /** `SearchRequest::new`: a traditional search for every kind of result
      over every page. */
  function NewSearchRequest(query: string): (r: SearchRequest)
    ensures r.query == query && r.searchType == Traditional
    ensures r.resultType == All && r.pageFilters.None?
  {
    SearchRequest(query, Traditional, All, None)
  }

  /** `with_search_type`: only the search type changes. */
  function WithSearchType(req: SearchRequest, t: SearchType): (r: SearchRequest)
    ensures r.searchType == t
    ensures r.query == req.query && r.resultType == req.resultType && r.pageFilters == req.pageFilters
  {
    req.(searchType := t)
  }

  /** `with_result_type`: only the result type changes. */
  function WithResultType(req: SearchRequest, t: ResultType): (r: SearchRequest)
    ensures r.resultType == t
    ensures r.query == req.query && r.searchType == req.searchType && r.pageFilters == req.pageFilters
  {
    req.(resultType := t)
  }

  /** `with_page_filters`: the filter list is set; nothing else changes. */
  function WithPageFilters(req: SearchRequest, ids: seq<PageId>): (r: SearchRequest)
    ensures r.pageFilters == Some(ids)
    ensures r.query == req.query && r.searchType == req.searchType && r.resultType == req.resultType
  {
    req.(pageFilters := Some(ids))
  }

  /** The builders set independent fields, so their order does not matter,
      and a later call of the same builder overrides an earlier one. */
  lemma BuildersCommute(req: SearchRequest, s: SearchType, t: ResultType, ids: seq<PageId>)
    ensures WithResultType(WithSearchType(req, s), t) == WithSearchType(WithResultType(req, t), s)
    ensures WithPageFilters(WithSearchType(req, s), ids) == WithSearchType(WithPageFilters(req, ids), s)
    ensures WithPageFilters(WithResultType(req, t), ids) == WithResultType(WithPageFilters(req, ids), t)
    ensures forall s' :: WithSearchType(WithSearchType(req, s'), s) == WithSearchType(req, s)
    ensures forall t' :: WithResultType(WithResultType(req, t'), t) == WithResultType(req, t)
  {
  }

  /** A page that matched, with its links. */
  datatype PageResult = PageResult(
    pageId: PageId,
    title: string,
    blockCount: nat,
    urls: seq<Url>,
    pageReferences: seq<PageReference>)

  /** A block that matched, with its hierarchy and the links around it. */
  datatype BlockResult = BlockResult(
    blockId: BlockId,
    content: string,
    pageId: PageId,
    pageTitle: string,
    hierarchyPath: seq<string>,
    relatedPages: seq<PageReference>,
    relatedUrls: seq<Url>)

  /** A URL that matched, with the block holding it and the references
      above and below that block. */
  datatype UrlResult = UrlResult(
    url: Url,
    containingBlockId: BlockId,
    containingBlockContent: string,
    pageId: PageId,
    pageTitle: string,
    ancestorPageRefs: seq<PageReference>,
    descendantPageRefs: seq<PageReference>)

  datatype SearchItem = PageItem(page: PageResult) | BlockItem(block: BlockResult) | UrlItem(url: UrlResult)

  /** A search hit; `score` is in tenths. */
  datatype SearchResult = SearchResult(item: SearchItem, score: nat)

  /** A page that holds a URL, with the blocks holding it. */
  datatype PageConnection = PageConnection(pageId: PageId, pageTitle: string, blocksWithUrl: seq<BlockId>)

  /** A URL of a page with its block, hierarchy and related references. */
  datatype UrlWithContext = UrlWithContext(
    url: Url,
    blockId: BlockId,
    blockContent: string,
    hierarchyPath: seq<string>,
    relatedPageRefs: seq<PageReference>)
}
