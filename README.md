# Logjam backend core in Dafny

This project models the core of the logjam backend. The backend reads a Logseq notes directory, a set of markdown outlines under `pages/` and `journals/`. It turns every file into a Page aggregate, a tree of Blocks. Each block carries its text, its URLs and its page references (`[[title]]` and `#tag`). The pages are kept in a repository, which the application layer searches and queries for links. The model covers:

- the domain layer: value objects, the Block and TextChunk entities, and the Page aggregate with its block arena and queries;
- the markdown parser, the embedding text preprocessor and the file watcher's event filter;
- the page repository contract and the indexing, search, URL and link use cases;
- the sync and import services.

Most Rust source files are one Dafny module each. `Base` stands for `base.rs` and also holds Option/Result and the enumeration of a map's keys. Two Rust files are split across modules. `aggregates.rs` is split into `Aggregates` (the Page class and its mutations), `BlockTree` (the theory of a page's block arena) and `PageQueries` (the read-only traversals of the Page aggregate). `search.rs` is split into `Search` and `ScoreSort`, the final sort of the results. `Strings` has no Rust file of its own: it holds the parts of `str` and of `{:?}` formatting the code uses.

Code that mutates in place is imperative Dafny:

- the `Page` aggregate is a class with `AddBlock` and `RemoveBlock`;
- the page repository is a class over a `map` from page id to page;
- the sync and import services are classes whose methods update the registry, the summary and the repository;
- the parser, search, query and preprocessing loops are methods with loop invariants.

Each loop method is proved equal to a specification function. The properties the source promises are then proved about those functions as lemmas.

Where the unit tests and the code disagree, the model follows the code. The test at `backend/src/infrastructure/parsers/logseq_markdown.rs:283-294` expects a tag between two bracket references. The code reports all bracket references first, then the tags, and the model does the same. The parser calls `Block::new_root` with an extra indent argument, and `Block::new_child` with its indent and parent arguments swapped, compared with `backend/src/domain/entities.rs`. The model uses the constructors as `entities.rs` declares them, with the indent and parent the parser means.

## Model

| member | source | states |
|---|---|---|
| ValueObjects.NewPageId | backend/src/domain/value_objects.rs:10-16 | a page id is accepted exactly when the text is non-empty and keeps the text; an empty one is an InvalidValue error |
| ValueObjects.NewBlockId | backend/src/domain/value_objects.rs:36-42 | a block id is accepted exactly when the text is non-empty and keeps the text; an empty one is an InvalidValue error |
| ValueObjects.NewUrl | backend/src/domain/value_objects.rs:64-78 | a URL is accepted exactly when it starts with `http://` or `https://`; the empty text gets its own "URL cannot be empty" error; every rejection is InvalidValue |
| ValueObjects.DebugPageIdOfPlainId | backend/src/domain/value_objects.rs:6-7 | the derived `Debug` of a page id with nothing to escape, such as a generated `page-<uuid>`, is `PageId("<id>")` |
| ValueObjects.DebugPageIdEscapesQuote | backend/src/domain/value_objects.rs:6-7 | a double quote in the id is written `\"` in the `Debug` text |
| Strings.UnescapeEscapeDebug | backend/src/application/use_cases/link_queries.rs:23 | the `{:?}` escaping of ASCII text loses nothing: reading its escapes back gives the text |
| ValueObjects.Domain | backend/src/domain/value_objects.rs:85-93 | the domain, when there is one, holds no '/' |
| ValueObjects.AcceptedUrlHasDomain | backend/src/domain/value_objects.rs:64-93 | every URL the constructor accepts has a domain |
| ValueObjects.DomainOfHostAndPath | backend/src/domain/value_objects.rs:85-93 | for `scheme://host` followed by an empty path or one starting with '/', the URL is accepted and its domain is exactly the host (the cases of the test at lines 266-272) |
| ValueObjects.PageReference.ToString | backend/src/domain/value_objects.rs:155-163 | a tag renders as '#' then its title; a bracket reference as the title between "[[" and "]]" |
| ValueObjects.FromBrackets | backend/src/domain/value_objects.rs:115-126 | succeeds exactly for a non-empty title, giving a non-tag page reference with that title |
| ValueObjects.FromTag | backend/src/domain/value_objects.rs:129-138 | succeeds exactly for a non-empty title, giving a tag with that title |
| ValueObjects.BlockContentEmptyIff | backend/src/domain/value_objects.rs:180-182 | block content is empty exactly when all its characters are whitespace |
| ValueObjects.Decrement | backend/src/domain/value_objects.rs:214-220 | there is no level below the root; any other level goes one down, and incrementing gives it back |
| ValueObjects.Increment | backend/src/domain/value_objects.rs:210-212 | incrementing always goes deeper |
| ValueObjects.DecrementIncrement | backend/src/domain/value_objects.rs:198-220 | decrement undoes increment, and the root level has no decrement (the test at lines 303-321) |
| Entities.AppendIfAbsent | backend/src/domain/entities.rs:88-92 | after the push-if-absent the element is present, a list without repeats stays without repeats, a present element leaves the list alone and an absent one is appended at the end |
| Entities.AppendIfAbsentIdempotent | backend/src/domain/entities.rs:88-92 | adding the same element twice equals adding it once (the test at lines 311-321) |
| Entities.RemoveAll | backend/src/domain/entities.rs:95-97 | `retain(id != x)` leaves no copy of x, keeps every other element and adds none, and keeps a list without repeats so |
| Entities.RemoveAllCounts | backend/src/domain/entities.rs:95-97 | the multiset after removal is the old one with x's count set to zero |
| Entities.RemoveAllConcat | backend/src/domain/entities.rs:95-97 | removal distributes over concatenation, so the survivors keep their order |
| Entities.RemoveUndoesAppend | backend/src/domain/entities.rs:88-97 | removing an element just appended (it was absent) restores the list |
| Entities.NewRoot | backend/src/domain/entities.rs:22-32 | a new root block has the given id and content, no parent, the root indent level, no children, URLs or references (the test at lines 265-275) |
| Entities.NewChild | backend/src/domain/entities.rs:35-50 | a new child block has the given id, content, parent and indent level and no children, URLs or references |
| Entities.AddChild | backend/src/domain/entities.rs:88-92 | only the child list changes: the child is appended when absent, and the block then has children |
| Entities.RemoveChild | backend/src/domain/entities.rs:95-97 | only the child list changes: the child is gone, every other child stays, no child is added |
| Entities.AddUrl | backend/src/domain/entities.rs:105-109 | only the URL list changes, by push-if-absent |
| Entities.AddPageReference | backend/src/domain/entities.rs:117-121 | only the reference list changes, by push-if-absent |
| Entities.UpdateContent | backend/src/domain/entities.rs:124-126 | the content is the new one and every other field is the block's own |
| Entities.SetParent | backend/src/domain/entities.rs:129-131 | the parent is replaced and nothing else changes; the block is a root exactly when the new parent is none |
| Entities.AddChildTwice | backend/src/domain/entities.rs:88-92 | adding the same child twice to a block without children leaves exactly that child (the test at lines 311-321) |
| Entities.RemoveChildUndoesAddChild | backend/src/domain/entities.rs:88-97 | removing a just-added child restores the block (the test at lines 324-335) |
| Entities.NewTextChunk | backend/src/domain/entities.rs:161-184 | a new chunk carries every argument it is given (ids, index, total, original and preprocessed text, page title and path), has no embedding, and is single exactly when the total is 1 (the tests at lines 376-408 and 440-478) |
| Entities.SetEmbedding | backend/src/domain/entities.rs:227-229 | after setting, the chunk has exactly that embedding and nothing else changed (the test at lines 411-437) |
| BlockTree.AncestorIds | backend/src/domain/aggregates.rs:142-160 | the blocks `get_ancestors` visits are all stored (the walk follows stored parents nearest first) |
| BlockTree.ChainDistinct | backend/src/domain/aggregates.rs:142-160 | in an acyclic arena no block is its own ancestor, so the ancestor walk ends |
| BlockTree.ChainEndsAtRoot | backend/src/domain/aggregates.rs:142-160 | in a page's tree every ancestor walk ends at a listed root |
| BlockTree.Descendants | backend/src/domain/aggregates.rs:163-177 | the pre-order walk below a block collects only stored blocks, without repeats |
| BlockTree.DescendantsAreSubtree | backend/src/domain/aggregates.rs:163-177 | in a page's tree, the descendants of a stored block are exactly the other stored blocks whose ancestor chain passes through it |
| BlockTree.AddKeepsRanked | backend/src/domain/aggregates.rs:40-70 | adding a fresh block without children keeps the arena acyclic |
| BlockTree.AddRootKeepsShape | backend/src/domain/aggregates.rs:54-66 | adding a fresh root block to the arena and the root list keeps the page a tree |
| BlockTree.AddChildKeepsShape | backend/src/domain/aggregates.rs:54-61 | adding a fresh child block and appending it to its parent's child list keeps the page a tree |
| Aggregates.Page.constructor | backend/src/domain/aggregates.rs:20-27 | a new page has the given id and title, no blocks and no roots (the test at lines 266-273) |
| Aggregates.Page.SetTitle | backend/src/domain/aggregates.rs:35-37 | only the title changes |
| Aggregates.Page.AddBlock | backend/src/domain/aggregates.rs:40-70 | a missing parent is refused with "Parent block … does not exist"; the block is accepted exactly when its parent is stored and it is new and childless; then it is stored, appended to its parent's child list or to the root list, and the page stays a tree (corrected form, see Findings) |
| Aggregates.Page.RemoveBlock | backend/src/domain/aggregates.rs:83-110 | an unknown id is NotFound and changes nothing; otherwise exactly the block and its descendants disappear, the parent loses it from its child list (or the root list loses it), every other block is unchanged, and the page stays a tree (the test at lines 479-502) |
| Aggregates.Page.RemoveSubtree | backend/src/domain/aggregates.rs:83-110 | the recursive step removes exactly the subtree of the block, unlinks it from its parent or the root list and keeps the tree shape |
| Aggregates.Page.RemoveChildren | backend/src/domain/aggregates.rs:103-106 | the loop over a snapshot of the child list removes each child's subtree in turn |
| Aggregates.AddBlockAsWritten | backend/src/domain/aggregates.rs:40-70 | as written, only a missing parent is refused and the block is then stored under its id, overwriting any block there |
| Aggregates.AddBlockAsWrittenMakesCycle | backend/src/domain/aggregates.rs:40-70 | re-adding a page's root as a child of its own child is accepted and makes the two blocks each other's parent, so the arena is no longer acyclic |
| PageQueries.GetBlock | backend/src/domain/aggregates.rs:73-75 | a block is found exactly when its id is stored, and what is found is a stored block |
| PageQueries.AddedBlockIsFound | backend/src/domain/aggregates.rs:40-75 | after a block is added it is found under its id; every id other than the block and its parent finds what it found before; the parent now lists the block as its last child |
| PageQueries.RootBlocks | backend/src/domain/aggregates.rs:113-118 | `root_blocks` yields at most one block per root id, each a stored block |
| PageQueries.RootBlocksAreRoots | backend/src/domain/aggregates.rs:113-118 | in a tree, a block is among the root blocks exactly when it is stored and has no parent |
| PageQueries.AllUrlsCount | backend/src/domain/aggregates.rs:126-131 | `all_urls` holds as many URLs as the blocks hold together, and a URL is in it exactly when some block holds it |
| PageQueries.AllPageReferencesCount | backend/src/domain/aggregates.rs:134-139 | `all_page_references` holds as many references as the blocks hold together, and a reference is in it exactly when some block holds it |
| PageQueries.GetAncestors | backend/src/domain/aggregates.rs:142-160 | the loop collects the blocks of the ancestor walk: parents, nearest first, while the parent is stored |
| PageQueries.AncestorsUpToRoot | backend/src/domain/aggregates.rs:142-160 | in a tree the ancestors start at the parent of the block, each is the parent of the one before, and the last is a root; a root has none (the test at lines 334-366) |
| PageQueries.AncestorIffDescendant | backend/src/domain/aggregates.rs:142-177 | in a tree, `a` is an ancestor of `k` exactly when `k` is a descendant of `a` |
| PageQueries.NotOwnAncestor | backend/src/domain/aggregates.rs:142-160 | a block is never among its own ancestors |
| PageQueries.ContextExcludesSelf | backend/src/domain/aggregates.rs:181-229 | a block is neither its own ancestor nor its own descendant, so its own links never count as its context |
| PageQueries.GetDescendants | backend/src/domain/aggregates.rs:163-177 | the recursive walk collects the stored children in child-list order, each followed by its own descendants (the test at lines 369-399) |
| PageQueries.GetHierarchyPath | backend/src/domain/aggregates.rs:232-242 | the path is the ancestors reversed, followed by the block itself when it is stored |
| PageQueries.HierarchyPathShape | backend/src/domain/aggregates.rs:232-242 | an unknown block has an empty path; in a tree the path of a stored block starts at a root, ends at the block, is one longer than its ancestors, and each entry is the parent of the next (the test at lines 402-435) |
| PageQueries.GetUrlsWithContext | backend/src/domain/aggregates.rs:181-203 | for each block in map order and each of its URLs, the URL with the references of the block's ancestors and of its descendants |
| PageQueries.UrlContextsMatchAllUrls | backend/src/domain/aggregates.rs:181-203 | `get_urls_with_context` yields exactly one triple per URL of `all_urls`, in the same order |
| PageQueries.UrlContextsOrigin | backend/src/domain/aggregates.rs:181-203 | each triple's context is that of a block holding its URL (the test at lines 438-476) |
| PageQueries.GetPageReferencesWithContext | backend/src/domain/aggregates.rs:207-229 | for each block in map order and each of its references, the reference with the URLs of the block's ancestors and of its descendants |
| PageQueries.RefContextsMatchAllReferences | backend/src/domain/aggregates.rs:207-229 | `get_page_references_with_context` yields exactly one triple per reference of `all_page_references`, in the same order |
| PageQueries.RefContextsOrigin | backend/src/domain/aggregates.rs:207-229 | each triple's context is that of a block holding its reference |
| Watcher.FileName | backend/src/infrastructure/file_system/watcher.rs:48 | the file name is the last component exactly when that component is a normal name |
| Watcher.NameExtension | backend/src/infrastructure/file_system/watcher.rs:34-40 | a name has an extension exactly when it has a dot after its first character; the extension is the text after the last dot and holds no dot |
| Watcher.FileStem | backend/src/infrastructure/file_system/watcher.rs:34-40 | a stem exists exactly when a file name does; the name is the stem, or the stem, a dot and the extension |
| Watcher.MarkdownIffSuffix | backend/src/infrastructure/file_system/watcher.rs:34-40 | an event is for markdown exactly when its file name is a non-empty stem followed by ".md" |
| Watcher.Parent | backend/src/infrastructure/file_system/watcher.rs:43-46 | a parent exists exactly when the path is non-empty and does not end at the root, and the path is its parent plus its last component |
| Watcher.Ancestors | backend/src/infrastructure/file_system/watcher.rs:43-46 | the ancestors start with the path itself and are all prefixes of it |
| Watcher.LogseqDirsIffComponent | backend/src/infrastructure/file_system/watcher.rs:43-53 | walking the ancestors finds pages or journals exactly when some component of the path has one of those names |
| Watcher.ConvertEvent | backend/src/infrastructure/file_system/watcher.rs:138-159 | a kept event keeps its path and becomes Modified whatever the debounced kind |
| Watcher.ConvertEventIffWatched | backend/src/infrastructure/file_system/watcher.rs:138-159 | an event is kept exactly when it is markdown and under pages/ or journals/, and the debounced kind plays no part |
| Watcher.FilterEvents | backend/src/infrastructure/file_system/watcher.rs:88-91 | the filtered batch is no longer than the batch and holds only Modified events |
| Watcher.FilterEventsAppend | backend/src/infrastructure/file_system/watcher.rs:88-91 | filtering a concatenation filters each part, so kept events keep their order |
| Watcher.FilterEventsMembers | backend/src/infrastructure/file_system/watcher.rs:88-91 | an event comes out exactly when some event of the batch is at its path and that path is watched |
| Watcher.ReceiveBatch | backend/src/infrastructure/file_system/watcher.rs:85-135 | a batch is handed on only when it holds events, and then it is the filtered batch and is non-empty; errors and a closed or empty channel give nothing |
| Watcher.ReceiveBatchNoneIff | backend/src/infrastructure/file_system/watcher.rs:85-135 | a batch of events gives nothing exactly when none of its paths is watched |
| Watcher.MarkdownExamples | backend/src/infrastructure/file_system/watcher.rs:166-179 | "/test/file.md" is markdown and "/test/file.txt" is not |
| Watcher.LogseqDirExamples | backend/src/infrastructure/file_system/watcher.rs:181-200 | paths under pages/ and journals/ are in the watched directories and one under assets/ is not |
| LogseqMarkdown.CalculateIndentLevel | backend/src/infrastructure/parsers/logseq_markdown.rs:88-106 | the loop counts the leading indent units (a tab or two spaces); a lone space ends the count (corrected form, see Findings) |
| LogseqMarkdown.LeadingUnitsOfIndentation | backend/src/infrastructure/parsers/logseq_markdown.rs:88-106 | any run of tabs and space pairs followed by text that starts no unit counts as its number of units (the tests at lines 255-261) |
| LogseqMarkdown.CalculateIndentLevelAsWritten | backend/src/infrastructure/parsers/logseq_markdown.rs:88-106 | the loop exactly as written, where a lone space swallows the next character and counting goes on |
| LogseqMarkdown.IndentAsWrittenOnUnits | backend/src/infrastructure/parsers/logseq_markdown.rs:88-106 | on whole units followed by anything but whitespace the written and the corrected counts agree with the number of units |
| LogseqMarkdown.IndentAsWrittenCountsPastText | backend/src/infrastructure/parsers/logseq_markdown.rs:88-106 | the line " a  b" has no indentation, yet the written loop counts one level |
| LogseqMarkdown.ExtractContent | backend/src/infrastructure/parsers/logseq_markdown.rs:109-120 | the extracted content is always a suffix of the line |
| LogseqMarkdown.ExtractContentOfBullet | backend/src/infrastructure/parsers/logseq_markdown.rs:109-120 | leading whitespace, a marker "-", "*" or "+" and one space are removed and nothing more (the tests at lines 264-270) |
| LogseqMarkdown.ExtractContentWithoutBullet | backend/src/infrastructure/parsers/logseq_markdown.rs:109-120 | a line without a marker keeps its text after the leading whitespace |
| LogseqMarkdown.ParseBlocks | backend/src/infrastructure/parsers/logseq_markdown.rs:61-85 | the loop yields the entries of the lines in order, skipping blank lines and lines blank once the marker is gone; each entry's indent is the corrected count (see Findings) |
| LogseqMarkdown.EntriesFromLines | backend/src/infrastructure/parsers/logseq_markdown.rs:61-85 | every entry has non-blank text and is the indent and content of a kept line |
| LogseqMarkdown.LinesGiveEntries | backend/src/infrastructure/parsers/logseq_markdown.rs:61-85 | every kept line gives its entry |
| LogseqMarkdown.ExtractUrls | backend/src/infrastructure/parsers/logseq_markdown.rs:184-202 | the loop yields, in word order, the URLs the words give |
| LogseqMarkdown.UrlsInMembers | backend/src/infrastructure/parsers/logseq_markdown.rs:184-202 | a URL is extracted exactly when it has an HTTP scheme and is some word with its trailing punctuation removed |
| LogseqMarkdown.UrlRoundTrip | backend/src/infrastructure/parsers/logseq_markdown.rs:184-202 | a URL written alone, without whitespace or trailing punctuation, is extracted as itself and only itself |
| LogseqMarkdown.ExtractPageReferences | backend/src/infrastructure/parsers/logseq_markdown.rs:205-247 | the references are the bracket scan's followed by the tags of the words |
| LogseqMarkdown.ScanReferences | backend/src/infrastructure/parsers/logseq_markdown.rs:209-232 | the character loop follows the bracket scan: "[[" opens a reference, "]]" closes it, and a non-empty one is reported |
| LogseqMarkdown.ExtractTags | backend/src/infrastructure/parsers/logseq_markdown.rs:235-244 | the word loop yields the tags of the words in order |
| LogseqMarkdown.ScanFindsReference | backend/src/infrastructure/parsers/logseq_markdown.rs:209-232 | "[[title]]" after text without brackets is reported as that reference, and the scan goes on after it |
| LogseqMarkdown.NoTagsWithoutHash | backend/src/infrastructure/parsers/logseq_markdown.rs:235-244 | text without '#' yields no tags |
| LogseqMarkdown.ReferenceRoundTrip | backend/src/infrastructure/parsers/logseq_markdown.rs:205-247 | a reference's own rendering, "[[title]]" or "#title", is read back as exactly that reference, for titles free of brackets and '#' (the test at lines 283-294) |
| LogseqMarkdown.TagWordRoundTrip | backend/src/infrastructure/parsers/logseq_markdown.rs:235-244 | "#title" is one word and that word is read as the tag |
| LogseqMarkdown.OpenAtMeaning | backend/src/infrastructure/parsers/logseq_markdown.rs:173-177 | the parent stack maps a level to the last entry at it while every later entry is deeper, and holds every such level |
| LogseqMarkdown.ParentIndexNearest | backend/src/infrastructure/parsers/logseq_markdown.rs:143-152 | the parent of an indented entry is the nearest earlier entry one level up; every entry between is at least as deep |
| LogseqMarkdown.AcceptedIffWellNested | backend/src/infrastructure/parsers/logseq_markdown.rs:123-181 | the hierarchy builder accepts every entry exactly when the outline is well nested |
| LogseqMarkdown.AddAllContents | backend/src/infrastructure/parsers/logseq_markdown.rs:170-171 | adding the blocks in turn stores each as given with its child list the later blocks naming it, and leaves the other blocks as they were |
| LogseqMarkdown.StackLookup | backend/src/infrastructure/parsers/logseq_markdown.rs:136-152 | a missing level above refuses exactly this entry; otherwise the entry is accepted and the stack gives its parent entry's id |
| LogseqMarkdown.AttachUrls | backend/src/infrastructure/parsers/logseq_markdown.rs:163-165 | each URL is added to the block in turn |
| LogseqMarkdown.AttachReferences | backend/src/infrastructure/parsers/logseq_markdown.rs:166-168 | each page reference is added to the block in turn |
| LogseqMarkdown.NewBlock | backend/src/infrastructure/parsers/logseq_markdown.rs:128-168 | the block for an entry carries its id, content, indent, parent, no children and the URLs and references of its text |
| LogseqMarkdown.BuildStep | backend/src/infrastructure/parsers/logseq_markdown.rs:127-178 | one round either finds the parent on the stack and adds the block, extending the arena, the root list and the stack, or meets the first orphan and changes nothing |
| LogseqMarkdown.BuildHierarchy | backend/src/infrastructure/parsers/logseq_markdown.rs:123-181 | the entries before the first orphan become blocks added in order, level-0 ones also roots; it succeeds exactly when there is no orphan, and otherwise fails with "No parent block found for indent level n" |
| LogseqMarkdown.ParseContent | backend/src/infrastructure/parsers/logseq_markdown.rs:47-58 | a page is returned exactly when the indents are well nested, and it is then a tree holding the blocks of all entries with the given id and title (the tests at lines 296-328); indents are the corrected count (see Findings) |
| LogseqMarkdown.ParseFile | backend/src/infrastructure/parsers/logseq_markdown.rs:30-44 | a read failure is an I/O error and a path without a stem "Invalid filename"; a parsed page is a tree with the given id and the file stem as its title; indents are the corrected count (see Findings) |
| LogseqMarkdown.UrlsOfWordsMembers | backend/src/infrastructure/parsers/logseq_markdown.rs:190-199 | a URL comes out of the word loop exactly when some word, cleaned of trailing punctuation, is that URL with an HTTP scheme |
| LogseqMarkdown.BracketRoundTrip | backend/src/infrastructure/parsers/logseq_markdown.rs:209-232 | "[[title]]" is read back as exactly that bracket reference |
| LogseqMarkdown.TagRoundTrip | backend/src/infrastructure/parsers/logseq_markdown.rs:235-244 | "#title" is read back as exactly that tag |
| LogseqMarkdown.MissingParentRefused | backend/src/infrastructure/parsers/logseq_markdown.rs:143-152 | an indented entry whose level above is not on the stack is the first one refused |
| PageRepository.EnumeratedPages | backend/src/application/repositories/page_repository.rs:27-28 | pages read along an enumeration of the keys are every stored page, each once, each under its own id |
| PageRepository.StoredPageShape | backend/src/application/repositories/page_repository.rs:8-35 | a page kept by a consistent store is an acyclic arena keyed by block id |
| PageRepository.SaveThenLookup | backend/src/application/repositories/page_repository.rs:9-19 | after a save the page is found under its id and every other id reads as before |
| PageRepository.SaveReplaces | backend/src/application/repositories/page_repository.rs:9-13 | saving a second page under the same id replaces the first |
| PageRepository.DeleteThenLookup | backend/src/application/repositories/page_repository.rs:15-34 | after a delete the id is not found and every other id reads as before |
| PageRepository.UpdatesKeepConsistent | backend/src/application/repositories/page_repository.rs:9-34 | saving a well-formed page and deleting keep every page stored under its own id and a tree |
| PageRepository.PageRepository.constructor | backend/src/application/repositories/page_repository.rs:8 | a new store is empty |
| PageRepository.PageRepository.Save | backend/src/application/repositories/page_repository.rs:9-13 | an upsert by id: it fails exactly when the store rejects the id, and then nothing changes |
| PageRepository.PageRepository.FindById | backend/src/application/repositories/page_repository.rs:15-19 | a page is found exactly when its id is stored, and it is the stored page |
| PageRepository.PageRepository.FindByTitle | backend/src/application/repositories/page_repository.rs:21-25 | a page is found exactly when some stored page has the title, and it is such a stored page |
| PageRepository.PageRepository.FindAll | backend/src/application/repositories/page_repository.rs:27-28 | every stored page exactly once |
| PageRepository.PageRepository.Delete | backend/src/application/repositories/page_repository.rs:30-34 | reports whether the id was stored, removes it and leaves every other page |
| TextPreprocessor.Windows | backend/src/infrastructure/embeddings/text_preprocessor.rs:84-101 | every word window lies within the words from the start on, is non-empty and holds at most `max` words |
| TextPreprocessor.WindowsShape | backend/src/infrastructure/embeddings/text_preprocessor.rs:84-101 | the windows cover the words from the start to the end: every window but the last holds exactly `max` words and the next one starts `overlap` words before its end |
| TextPreprocessor.ChunkText | backend/src/infrastructure/embeddings/text_preprocessor.rs:72-102 | `chunk_text` returns the text whole when it has at most `max` words, and otherwise the texts of the word windows |
| TextPreprocessor.ChunkWords | backend/src/infrastructure/embeddings/text_preprocessor.rs:84-101 | the window loop cuts one piece per window, in order |
| TextPreprocessor.ChunksOfWords | backend/src/infrastructure/embeddings/text_preprocessor.rs:84-101 | more than `max` words give more than one chunk, each the words of its window joined by single spaces (the tests at lines 204-229) |
| TextPreprocessor.WindowWords | backend/src/infrastructure/embeddings/text_preprocessor.rs:78-89 | splitting a chunk into words gives back the words of its window |
| TextPreprocessor.ChunksOfShortText | backend/src/infrastructure/embeddings/text_preprocessor.rs:78-82 | a text of at most `max` words is returned whole as the only chunk (the test at lines 195-202) |
| TextPreprocessor.LeadingMarker | backend/src/infrastructure/embeddings/text_preprocessor.rs:21 | finds which of TODO, DONE, LATER, NOW and IN-PROGRESS followed by whitespace starts the text, or that none does |
| TextPreprocessor.CloseAt | backend/src/infrastructure/embeddings/text_preprocessor.rs:17 | the first ']' at or after a position, or the end of the text |
| TextPreprocessor.RemoveTagMarks | backend/src/infrastructure/embeddings/text_preprocessor.rs:19 | dropping the '#' of tags never lengthens the text |
| TextPreprocessor.LastParents | backend/src/infrastructure/embeddings/text_preprocessor.rs:53-60 | at most the last two entries of the hierarchy path, in order |
| TextPreprocessor.Preprocess | backend/src/infrastructure/embeddings/text_preprocessor.rs:33-68 | the body is cleaned step by step and prefixed by the context parts |
| TextPreprocessor.PreprocessedShape | backend/src/infrastructure/embeddings/text_preprocessor.rs:45-67 | the result is the trimmed body, preceded by "Page: title. " when there is a title and by "Context: a > b. " when there is a path (the tests at lines 152-176) |
| TextPreprocessor.LastTwoParents | backend/src/infrastructure/embeddings/text_preprocessor.rs:53-58 | of a longer path only the last two entries are kept (the test at lines 161-176) |
| TextPreprocessor.StripMarkerOfTask | backend/src/infrastructure/embeddings/text_preprocessor.rs:37 | a leading task marker and the whitespace after it are removed and the rest kept (the test at lines 137-150) |
| TextPreprocessor.MarkersExclusive | backend/src/infrastructure/embeddings/text_preprocessor.rs:21 | at most one marker followed by whitespace starts a text |
| TextPreprocessor.StripMarkerNone | backend/src/infrastructure/embeddings/text_preprocessor.rs:37 | text without a leading marker is unchanged |
| TextPreprocessor.ReplaceReferencesPlain | backend/src/infrastructure/embeddings/text_preprocessor.rs:40 | text without '[' is unchanged by the reference step |
| TextPreprocessor.ReferenceRenderingReplaced | backend/src/infrastructure/embeddings/text_preprocessor.rs:40 | "[[title]]" becomes its title (the test at lines 115-124) |
| TextPreprocessor.RemoveTagMarksPlain | backend/src/infrastructure/embeddings/text_preprocessor.rs:43 | text without '#' is unchanged by the tag step |
| TextPreprocessor.TagRenderingReplaced | backend/src/infrastructure/embeddings/text_preprocessor.rs:43 | "#title" becomes its title when the title starts with a word character (the test at lines 126-135) |
| Indexing.FirstRejected | backend/src/application/use_cases/indexing.rs:43-50 | the position of the first page from a start whose save is rejected, with every earlier page accepted, or none when every save is accepted |
| Indexing.LastWithId | backend/src/application/use_cases/indexing.rs:43-50 | the last page of the batch with a given id, or none when no page has it |
| Indexing.IndexPage | backend/src/application/use_cases/indexing.rs:21-24 | one save: it succeeds exactly when the store accepts the id, and the page is then stored under its id, replacing any earlier one |
| Indexing.BatchIndexPages | backend/src/application/use_cases/indexing.rs:43-50 | the pages are saved in turn; success, with the count of pages, exactly when no save is rejected; otherwise the pages before the first rejected one stay saved |
| Indexing.SavedAllLookup | backend/src/application/use_cases/indexing.rs:43-50 | after a batch every id reads as the last page of the batch with it, or as before when none has it |
| Indexing.SavedAllConsistent | backend/src/application/use_cases/indexing.rs:43-50 | a batch of well-formed pages keeps the store consistent |
| Indexing.SavedAllCount | backend/src/application/use_cases/indexing.rs:43-50 | pages with distinct new ids add one stored page each (the test at lines 141-156) |
| Indexing.ReindexReplaces | backend/src/application/use_cases/indexing.rs:114-139 | indexing a second page under the same id replaces the first |
| SearchDto.NewSearchRequest | backend/src/application/dto/search.rs:39-46 | a new request carries the query, a traditional search, every result type and no page filter |
| SearchDto.WithSearchType | backend/src/application/dto/search.rs:48-51 | only the search type changes |
| SearchDto.WithResultType | backend/src/application/dto/search.rs:53-56 | only the result type changes |
| SearchDto.WithPageFilters | backend/src/application/dto/search.rs:58-61 | only the page filter changes, to the given ids |
| SearchDto.BuildersCommute | backend/src/application/dto/search.rs:48-61 | the builders set independent fields, so their order does not matter, and a later call of the same builder overrides an earlier one |
| UrlQueries.BlocksWithUrl | backend/src/application/use_cases/url_queries.rs:26-30 | the collected ids are at most the listed ones |
| UrlQueries.BlocksWithUrlMembers | backend/src/application/use_cases/url_queries.rs:26-30 | an id is collected exactly when it is listed and its block holds the URL, and once when the list has no repeats |
| UrlQueries.ConnectionSpec | backend/src/application/use_cases/url_queries.rs:22-39 | a page contributes a connection exactly when one of its blocks holds the URL, and it carries the page's id and title and the blocks holding the URL |
| UrlQueries.ConnectionListed | backend/src/application/use_cases/url_queries.rs:22-39 | the connection of every page that holds the URL is among the results |
| UrlQueries.ConnectionOrigin | backend/src/application/use_cases/url_queries.rs:22-39 | every result is the connection of one of the pages |
| UrlQueries.ConnectionsDistinct | backend/src/application/use_cases/url_queries.rs:18-43 | pages with distinct ids give at most one connection each |
| UrlQueries.NoHolderNoConnections | backend/src/application/use_cases/url_queries.rs:18-43 | when no page holds the URL there is no connection |
| UrlQueries.BlocksHoldingUrl | backend/src/application/use_cases/url_queries.rs:26-30 | the inner loop collects the ids of one page's blocks holding the URL, in map order |
| UrlQueries.PageConnectionOf | backend/src/application/use_cases/url_queries.rs:22-39 | one page's contribution, along some iteration order of its blocks |
| UrlQueries.GetPagesForUrl | backend/src/application/use_cases/url_queries.rs:18-43 | every stored page once, in the order `find_all` gives, and one connection for each page holding the URL, in that order |
| LinkQueries.Contents | backend/src/application/use_cases/link_queries.rs:38-42 | the text of each block, in order |
| LinkQueries.FirstHolder | backend/src/application/use_cases/link_queries.rs:33-35 | the position of the first block in map order whose URLs hold the URL, or none |
| LinkQueries.FindHolder | backend/src/application/use_cases/link_queries.rs:33-35 | the block `find` stops at: the first block in map order holding the URL, found exactly when one holds it |
| LinkQueries.GetLinksForPage | backend/src/application/use_cases/link_queries.rs:18-60 | a missing page is NotFound with its message, the id written as its derived `Debug` text with quotes, backslashes and control characters escaped; otherwise one record per URL triple whose URL some block holds |
| LinkQueries.LinksAllFound | backend/src/application/use_cases/link_queries.rs:31-57 | when every URL of the triples is held by some block there is one record per triple |
| LinkQueries.LinkOfSpec | backend/src/application/use_cases/link_queries.rs:31-57 | a record carries the triple's URL, the first block holding it, that block's content, a hierarchy path ending in that content, and the references of the triple |
| LinkQueries.LinksForPage | backend/src/application/use_cases/link_queries.rs:18-60 | a stored page gives one record per URL of `all_urls`, in the same order, each naming a block that holds the URL with its content and the path from a root to it |
| LinkQueries.LinkOfSoleHolder | backend/src/application/use_cases/link_queries.rs:31-57 | when only one block holds a URL, its record names that block and the references around that same block |
| ScoreSort.InsertByScore | backend/src/application/use_cases/search.rs:85 | one insertion lengthens the results by one |
| ScoreSort.SortByScore | backend/src/application/use_cases/search.rs:85 | sorting keeps the number of results |
| ScoreSort.InsertKeepsSorted | backend/src/application/use_cases/search.rs:85 | inserting into results sorted highest score first keeps them sorted |
| ScoreSort.InsertKeepsTies | backend/src/application/use_cases/search.rs:85 | an inserted result goes after every result of its own score and leaves the other scores' results as they were |
| ScoreSort.SortByScoreSpec | backend/src/application/use_cases/search.rs:85 | the sorted results run highest score first, are a permutation of the input, and keep the input order among equal scores (a stable sort) |
| ScoreSort.SortedTiesDetermine | backend/src/application/use_cases/search.rs:85 | two sorted sequences with the same results at every score, in the same order, are equal |
| ScoreSort.SortedOrderUnique | backend/src/application/use_cases/search.rs:85 | any stable sort by descending score of the results is exactly SortByScore's |
| ScoreSort.InsertResult | backend/src/application/use_cases/search.rs:85 | the insertion loop finds the position after the results scoring at least as high |
| ScoreSort.SortResults | backend/src/application/use_cases/search.rs:85 | the insertion sort over the results computes SortByScore |
| Search.PrefixContains | backend/src/application/use_cases/search.rs:94-99 | a string starts with itself, and whatever starts with a pattern contains it |
| Search.MatchScore | backend/src/application/use_cases/search.rs:92-100 | a title or content matches exactly when it contains the query; the top score (1.0) exactly on equality, the next (0.9) exactly on a proper prefix, otherwise 0.7 |
| Search.UrlMatchScore | backend/src/application/use_cases/search.rs:178-183 | a URL matches exactly when it contains the query; the top score (1.0) exactly on equality, otherwise 0.8 |
| Search.PageHit | backend/src/application/use_cases/search.rs:90-115 | a page is a hit exactly when its lowercased title contains the query, and the hit is a page result scored by the title match |
| Search.PageHitSpec | backend/src/application/use_cases/search.rs:102-111 | a page hit carries the page's id, title and block count, and exactly the URLs and references its blocks hold, as many as they hold |
| Search.BlockHits | backend/src/application/use_cases/search.rs:117-168 | every block hit is a block result |
| Search.BlockHitListed | backend/src/application/use_cases/search.rs:117-168 | the hit of every listed block that matches is among the block hits |
| Search.BlockHitOrigin | backend/src/application/use_cases/search.rs:117-168 | every block hit is the hit of a listed block |
| Search.BlockHitSpec | backend/src/application/use_cases/search.rs:121-163 | a block is a hit exactly when its lowercased content contains the query; the hit names the block and its page, scores the content match, and its hierarchy path runs from a root to the block's content |
| Search.BlockHitRelated | backend/src/application/use_cases/search.rs:138-150 | the related references and URLs of a block hit are exactly those held by the block's ancestors or descendants |
| Search.CollectRelated | backend/src/application/use_cases/search.rs:142-150 | the loop gathers the references and URLs of a list of blocks in order |
| Search.SearchBlock | backend/src/application/use_cases/search.rs:120-164 | one round of the block loop computes the block's hit |
| Search.SearchBlocks | backend/src/application/use_cases/search.rs:117-168 | the block hits of a page in map order |
| Search.UrlHit | backend/src/application/use_cases/search.rs:176-203 | a URL hit is a URL result |
| Search.UrlHits | backend/src/application/use_cases/search.rs:170-207 | every URL hit is a URL result |
| Search.UrlHitListed | backend/src/application/use_cases/search.rs:170-207 | the hit of every listed triple that matches is among the URL hits |
| Search.UrlHitOrigin | backend/src/application/use_cases/search.rs:170-207 | every URL hit is the hit of a listed triple |
| Search.UrlHitSpec | backend/src/application/use_cases/search.rs:176-203 | a triple whose URL some block holds is a hit exactly when its lowercased URL contains the query; the hit names a block holding the URL, the page, and the triple's references |
| Search.SearchUrls | backend/src/application/use_cases/search.rs:170-207 | the URL hits of the page's `get_urls_with_context` triples, in order |
| Search.SearchPage | backend/src/application/use_cases/search.rs:59-82 | the hits of one page: its page hit, block hits and URL hits, each only when the result type asks for it |
| Search.TraditionalSearch | backend/src/application/use_cases/search.rs:55-88 | the hits of every page in turn, sorted by score highest first |
| Search.PageResultsGated | backend/src/application/use_cases/search.rs:61-81 | every hit of a page is of a kind the result type asks for |
| Search.SearchResultsSpec | backend/src/application/use_cases/search.rs:55-88 | a search returns every hit of the pages once, highest score first, ties in page and map order, and only the kinds the result type asks for |
| Search.FilteredPages | backend/src/application/use_cases/search.rs:45-53 | at most one page per filter id, each a stored page |
| Search.FilteredPagesSpec | backend/src/application/use_cases/search.rs:45-53 | the filtered pages are exactly the stored pages some filter id names, one per id when every id is stored (the test at lines 307-330) |
| Search.GetFilteredPages | backend/src/application/use_cases/search.rs:45-53 | the loop looks each id up in turn and keeps the stored pages |
| Search.Execute | backend/src/application/use_cases/search.rs:24-43 | the pages the filter names, or every stored page in `find_all` order, searched as the traditional search does, for both search types |
| SyncService.RecordedIsCurrent | backend/src/application/services/sync_service.rs:193-199 | once a file is recorded at a time, it needs syncing again exactly when its modification time is later; an equal time is unchanged |
| SyncService.SyncSaveAsWrittenDuplicates | backend/src/application/services/sync_service.rs:204-212 | as written, saving the parsed page of an updated file under its fresh id leaves the old page with the same title beside it, so titles are no longer unique |
| SyncService.SyncSaveKeepsTitlesUnique | backend/src/application/services/sync_service.rs:204-232 | the corrected save keeps titles unique: an updated file replaces the page found for its title, a new file adds exactly one page, and the page with the title carries the parsed blocks |
| SyncService.WithoutSpec | backend/src/application/services/sync_service.rs:250-257 | the registry without the stale paths keeps exactly the other entries, unchanged |
| SyncService.TitlesOf | backend/src/application/services/sync_service.rs:256-260 | one title per stale path |
| SyncService.TitlesOfSpec | backend/src/application/services/sync_service.rs:256-260 | the titles looked up are exactly those recorded for the stale paths |
| SyncService.SweepDone | backend/src/application/services/sync_service.rs:250-274 | after the sweep exactly the present paths stay registered, and the titles handled are those of the entries that went away |
| SyncService.OperationOf | backend/src/application/services/sync_service.rs:311-315 | each event kind maps to its operation on the same path: Created to Create, Modified to Update, Deleted to Delete |
| SyncService.CountOk | backend/src/application/services/sync_service.rs:317-324 | at most one count per result |
| SyncService.OkCount | backend/src/application/services/sync_service.rs:317-324 | at most one count per result |
| SyncService.CountsAddUp | backend/src/application/services/sync_service.rs:317-324 | every successful result is counted under exactly one kind |
| SyncService.TallyStep | backend/src/application/services/sync_service.rs:317-324 | one more successful result adds one to its kind's counter; a failure adds nothing |
| SyncService.SyncService.constructor | backend/src/application/services/sync_service.rs:82-98 | the debounce defaults to 500 ms and the registry starts empty |
| SyncService.SyncService.SyncFile | backend/src/application/services/sync_service.rs:171-238 | a metadata failure or a path without a stem is a file-system error that changes nothing; an unchanged file only counts as unchanged; a changed or new file is parsed and saved in place of the page with its title (the corrected save, see Findings), recorded with its modification time and counted as updated or created; a parse or save failure changes nothing |
| SyncService.SyncService.SyncChanged | backend/src/application/services/sync_service.rs:201-232 | a changed file: the page carrying its title is looked up, a parse failure is returned as such, and a parsed page is stored in place of that page (the corrected save, see Findings) |
| SyncService.SyncService.StoreParsed | backend/src/application/services/sync_service.rs:210-232 | the parsed page replaces the page found for its title (the corrected save, see Findings); a rejected save changes nothing; otherwise the file is recorded and counted as updated when a page had its title, else as created |
| SyncService.SyncService.SyncStep | backend/src/application/services/sync_service.rs:127-143 | one file is synced and its failure, if any, recorded against its path; each file adds exactly one count or error |
| SyncService.SyncService.DropEntry | backend/src/application/services/sync_service.rs:256-273 | a stale entry leaves the registry, and a page carrying its title is deleted and counted when there is one |
| SyncService.SyncService.HandleDeletions | backend/src/application/services/sync_service.rs:241-277 | exactly the entries whose path is no longer present leave the registry, a page for each of their titles is deleted, and the count is the number of pages deleted |
| SyncService.SyncService.SyncOnce | backend/src/application/services/sync_service.rs:107-168 | a failed discovery is a file-system error; otherwise every file is counted once as created, updated, unchanged or in error, every registered path is listed, and with no errors every file is recorded as current; a second run over an unchanged, fully recorded directory reports every file unchanged and changes nothing |
| SyncService.SyncService.SyncFiles | backend/src/application/services/sync_service.rs:127-143 | the loop over the files counts each once, records errors only against listed paths, and leaves every file current when there are no errors |
| SyncService.SyncService.ProcessOperation | backend/src/application/services/sync_service.rs:350-399 | Delete changes nothing and reports Deleted; Create and Update parse the file and save the page as parsed, reporting Created or Modified, or the parse or repository error |
| SyncService.SyncService.ProcessEvent | backend/src/application/services/sync_service.rs:310-317 | an event's operation succeeds with the event's own kind; a deletion always succeeds |
| SyncService.SyncService.ProcessEvents | backend/src/application/services/sync_service.rs:303-347 | one result per event, each success counted under the event's kind, failures skipped |
| SyncService.SyncService.SyncTwice | backend/src/application/services/sync_service.rs:107-238 | when a first sync reports no error, a second over the same listing finds every file unchanged |
| SyncService.PathsOf | backend/src/application/services/sync_service.rs:124 | the set of paths of the discovered files |
| SyncService.KeptAreListed | backend/src/application/services/sync_service.rs:250-254 | every path the sweep keeps is listed |
| SyncService.KeptStayUpToDate | backend/src/application/services/sync_service.rs:250-254 | the sweep keeps every listed file's entry as it was |
| SyncService.SweptKeepsTitlesUnique | backend/src/application/services/sync_service.rs:256-273 | deleting pages keeps titles unique |
| SyncService.NoneGone | backend/src/application/services/sync_service.rs:250-274 | with every registered path still listed the sweep drops nothing and deletes no page |
| ImportService.HasErrors | backend/src/application/services/import_service.rs:180-182 | true exactly when some error was recorded |
| ImportService.SuccessRate | backend/src/application/services/import_service.rs:173-178 | 100 percent for an empty import, otherwise exactly the fraction imported / total times 100 |
| ImportService.SuccessRateBounds | backend/src/application/services/import_service.rs:173-178 | the rate is at most 100 when no more pages than files were imported, and exactly 100 when every file was |
| ImportService.EightOfTen | backend/src/application/services/import_service.rs:229-243 | ten files with eight imported and two errors give 80 percent and report errors |
| ImportService.FailureOf | backend/src/application/services/import_service.rs:108-122 | a parse failure is recorded as such; a parsed page fails exactly when its save is rejected, and then as a save failure |
| ImportService.ProgressEvents | backend/src/application/services/import_service.rs:124-134 | one progress event per collected result |
| ImportService.ImportAccounting | backend/src/application/services/import_service.rs:107-135 | every collected result is counted once, as imported or as failed |
| ImportService.FailuresAreFromArrivals | backend/src/application/services/import_service.rs:107-135 | each error names a collected file and says why it failed, and each file that failed has its error |
| ImportService.CompletedIffAllImported | backend/src/application/services/import_service.rs:139-152 | there are no errors exactly when every collected file was imported |
| ImportService.ImportService.constructor | backend/src/application/services/import_service.rs:52-57 | the default bound is four files at a time |
| ImportService.ImportService.WithConcurrency | backend/src/application/services/import_service.rs:59-62 | only the bound changes, and the service stays valid for an import |
| ImportService.ImportService.Collect | backend/src/application/services/import_service.rs:107-126 | one result: a parsed page is saved; the file counts as imported, or its failure is recorded against its path |
| ImportService.ImportService.ImportDirectory | backend/src/application/services/import_service.rs:65-160 | a failed discovery is a file-system error with no events; otherwise the summary holds the total, the pages imported and the failures of the collected results, the store holds every page saved in arrival order, and the callback sees Started, one FileProcessed per result and then Completed or "n files failed to import" |
| ImportService.ImportService.ImportAll | backend/src/application/services/import_service.rs:65-160 | when the arrivals report the discovered files, each once in some order (one task per file), pages imported plus errors is the total, every error names a discovered file, there are total+2 events, and the last one is Completed exactly when there are no errors and otherwise reports every file processed |

## Left out

- File and channel I/O: reading files, file metadata, directory discovery (`discover_logseq_files`) and the watcher's channel are parameters. A file's text, or the I/O error message, is a `Result` value. Its modification time is a `nat` or an error. The discovered listing is a `Result` of a sequence. A received watcher message is a datatype value.
- Asynchrony and concurrency: tokio tasks, the `Semaphore`/`mpsc` pipeline of the import, the service mutexes, and the `start_watching` loop with its sleep are not modelled. The import's collection loop runs over the order in which results arrive, given as a parameter. ImportService.ImportService.ImportDirectory takes any arrival sequence, and ImportAll ties the arrivals to a reordering of the discovered files. A concurrency bound of 0 makes the code's `Semaphore` hand out no permit, so that import never ends. The model accepts the bound of 0 and still returns a summary.
- Callbacks and tracing: the sync callbacks are not modelled. The import's progress events are returned as a sequence instead of being passed to a callback. Log output is left out.
- Watcher creation (`LogseqFileWatcher::new`) and `SyncError::Watcher` are not modelled. The debounce duration is only stored.
- Identifier generation: the `page-<uuid>` and `block-<uuid>` ids are parameters that the caller guarantees are fresh and distinct.
- Unicode: whitespace, ASCII punctuation and lowercasing are the ASCII subsets of Rust's definitions. `{:?}` escaping is modelled for ASCII; non-ASCII characters are written as they are, so Rust's escaping of non-printable Unicode is not modelled. Paths are sequences of components, and a non-UTF-8 file name is not modelled.
- The regular expressions of the text preprocessor are written out as scans. `\s` and `\w` are their ASCII subsets.
- Hash map iteration order is unspecified in Rust. It is a parameter: an enumeration of the keys that lists each key once.
- Floating point: search scores are integer tenths (1.0, 0.9, 0.8 and 0.7 become 10, 9, 8 and 7). `success_rate` is an exact fraction.
- Machine integers: counters are unbounded `nat`, so `usize` overflow is not modelled.
- Display and error text: messages are kept where the code builds them (e.g. "Parent block … does not exist", "No parent block found for indent level n", "n files failed to import", and the `{:?}` of a page id in "Page with id … not found"). Other errors are datatype values rather than their `Display` strings, including the import's per-file error strings. The sync's "Invalid filename: <path>" is shortened to "Invalid filename".
- Repository failures: a save fails exactly for the page ids the store is told to reject, with one fixed error. Read and delete failures of a real backend are not modelled. The SQLite backend is not part of this model.
- ScoreSort.SortResults: `sort_by` sorts the vector in place. The model sorts a sequence with an insertion sort and proves that every stable descending sort gives the same sequence.
- `ImportProgress` and `LogseqDirectoryPath` are used but not defined in `backend/src/domain/value_objects.rs`. The import keeps its progress as a counter and takes no directory value; the listing stands for what discovery returns.
- The elapsed import time is a parameter.
- SyncService.SyncService.SyncFile: saves the parsed page under the id of the page found by its title, which is the correction in Findings. As written, the parsed page keeps its fresh id, so an updated file adds a second page with that title. SyncStep, SyncFiles, SyncOnce and SyncTwice inherit the corrected save.
- SyncService.SyncService.SyncChanged: stores the parsed page through StoreParsed, so it has the corrected save of SyncFile rather than the fresh-id save as written.
- SyncService.SyncService.StoreParsed: saves the parsed page under the id of the page found by its title, where the code as written saves the parsed page under its own fresh id (see Findings).
- SyncService.SyncService.ProcessOperation: Create and Update save the parsed page under its fresh id, as written. Repeated events for one file therefore add pages with the same title, as `sync_file` does as written (see Findings).
- LogseqMarkdown.ParseBlocks: entries take the corrected indent count (see Findings), and so do ParseContent, ParseFile and the sync and import services that parse files. As written, `"x\n a  b"` makes `a  b` a child of `x`, and a first line `" a  b"` is refused with "No parent block found for indent level 1". The model makes `a  b` a root and accepts the first line.
- TextPreprocessor.ChunkText: a text longer than `max_words` requires `overlap_words < max_words`. Otherwise the source's window never advances or its start underflows.
- Embeddings, the vector store, the SQLite repository, `events.rs` and `discovery.rs` are not part of this model.

## Findings

| source | as written | input that shows it | evidently intended | confidence | as-written member | corrected member |
|---|---|---|---|---|---|---|
| backend/src/domain/aggregates.rs:40-70 | `add_block` checks only that the parent exists. It then inserts the block under its id, overwriting any block already stored there | a page with root `r` and its child `c`; add a block `r` with parent `c` | a block id already in the page, or a block that arrives with children, is refused, so the page stays a tree and `get_ancestors` ends | not executed | Aggregates.AddBlockAsWrittenMakesCycle | Aggregates.Page.AddBlock |
| backend/src/infrastructure/parsers/logseq_markdown.rs:88-106 | a single space consumes the next character whatever it is, and counting goes on past text | the line `" a  b"` | a tab or a pair of spaces is one level, and anything else ends the count (the line has indent 0) | not executed | LogseqMarkdown.IndentAsWrittenCountsPastText | LogseqMarkdown.CalculateIndentLevel |
| backend/src/application/services/sync_service.rs:201-219 | an updated file is parsed into a page with a fresh id and saved. The page found by title is only used to count the file as updated, so the old page stays stored | sync `pages/a.md`, edit it, sync again: the store holds two pages titled "a" | the updated page replaces the page found for its title, so each title is carried by one page | not executed | SyncService.SyncSaveAsWrittenDuplicates | SyncService.SyncSaveKeepsTitlesUnique |
