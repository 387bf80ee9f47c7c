# kobo-to-notion in Dafny

A Dafny model of the sync engine of kobo-to-notion. The engine reads the
highlights and notes (bookmarks) of a Kobo e-reader and keeps one Notion page
per book up to date. The modelled parts are:

- deriving the book title from a bookmark's volume path;
- filtering out bookmarks whose ids are already known;
- normalising the creation date before it is parsed;
- cutting long texts into runs of at most 2000 code points;
- rendering a bookmark as Notion quote blocks;
- the paginated queries that collect the known bookmark ids and the page of
  each book title;
- the grouped sync (`AddBookmarks`), which updates the page of each book or
  creates it;
- reading the configuration from the environment.

Modules follow the Go packages:

| file | module | models |
|---|---|---|
| wrappers.dfy | Wrappers | `Option`, `Result`, `Outcome` and the error values the Go code returns |
| kobo.dfy | Kobo | the `Bookmark` record |
| notion_types.dfy | NotionTypes | rich-text runs, quote blocks, database rows, paginated responses and the property names of notion/core.go |
| utils.dfy | Utils | utils/utils.go |
| config.dfy | Config | config/config.go |
| store.dfy | Store | the remote Notion workspace behind the database, page and block clients |
| blocks.dfy | Blocks | notion/blocks.go |
| query.dfy | Query | notion/query.go |
| add_grouped.dfy | AddGrouped | notion/add_grouped.go |

The remote workspace is the class `Store.NotionStore`. It holds the pages
created through it, with their child blocks, and the next page identifier.
`Create` and `AppendChildren` change it; `Get` and `GetChildren` read it.
Every remote call may fail for reasons the engine cannot see, so the model
leaves the outcome of each call open. The children listing is honest: pages
of at most `pageSize` blocks, and a cursor that stands for a position in the
list.

The database query is a fixed function from database id and cursor to a
page of rows, or an error. The query loops take a ghost witness of the cursor
chain (`Query.IsQueryChain`): "" first, then each response's cursor, ending
with a response that does not continue. A loop terminates exactly when the
endpoint has such a chain, and the chain is unique (`Query.QueryChainUnique`).

`NotionService` methods become module-level methods that take the store.
Loops are `while`/`for` loops with invariants, proved against recursive
specification functions. Go's iteration over the group map is an arbitrary
choice of the next book (`:|`).

## Notes on the source

- `updateBookPage` skips a whole bookmark as soon as its text or its
  annotation occurs in a current block (notion/add_grouped.go:98). The model
  uses that test as written; see Findings.
- The loop that would remove blocks of vanished bookmarks is commented out
  (notion/add_grouped.go:107-126), and no step archives pages of vanished
  books. The model has neither.
- The record in kobo/kobo.go:9-16 has no colour field, but
  notion/blocks.go:72 reads `bookmark.Color`. `Kobo.Bookmark` carries a
  `color` string as the key into the palette.
- Pages are never given a "Bookmark ID" property by `createBookPage` or
  `createBookPageWithBookmarks`, although `GetBookmarkIDs` reads that
  property. The model does the same: `Store.PageData` has no such field.

## Model

| member | source | states |
|---|---|---|
| Utils.Contains | utils/utils.go:70-82 | `strings.Contains`: the substring starts at some position of the string; `Utils.ContainsEmpty` and `Utils.ContainsSuffix` state its properties |
| Utils.Base | utils/utils.go:16 | `filepath.Base` on '/'-separated paths; `Utils.BaseSpec` and `Utils.BaseOfFile` state its properties |
| Utils.Ext | utils/utils.go:17 | `filepath.Ext`; `Utils.ExtSpec`, `Utils.ExtOfDotted` and `Utils.ExtOfUndotted` state its properties |
| Utils.GetBookNameFromVolumeID | utils/utils.go:14-19 | the title is the base of the path after "file://" without its extension; `Utils.BookNameHasNoSlash`, `Utils.BookNameOfFileWithExtension` and `Utils.BookNameOfFileWithoutExtension` state its properties |
| Utils.TrimPrefix | utils/utils.go:15 | with the prefix present, prefix plus result is the input; otherwise the input is unchanged |
| Utils.TrimSuffix | utils/utils.go:17 | with the suffix present, result plus suffix is the input; otherwise the input is unchanged |
| Utils.StripTrailingSlashesSpec | utils/utils.go:16 | the stripped path is a prefix that does not end in '/', and only '/' characters were cut |
| Utils.LastElementSpec | utils/utils.go:16 | the last element has no '/', ends the path, and starts the path or follows a '/' |
| Utils.BaseSpec | utils/utils.go:16 | `filepath.Base` is never empty, and is ".", "/" or free of '/' |
| Utils.ExtSpec | utils/utils.go:17 | `filepath.Ext` is a suffix without '/', either empty or one '.' followed by no other '.' |
| Utils.BookNameHasNoSlash | utils/utils.go:14-19 | a book title is "/" or contains no '/' |
| Utils.LastElementAfterSlash | utils/utils.go:16 | the last element of `dir/name` is `name` when `name` has no '/' |
| Utils.ExtOfDotted | utils/utils.go:17 | the extension of `stem.ext` is `.ext` when `ext` has no '.' or '/' |
| Utils.ExtOfUndotted | utils/utils.go:17 | a name without '.' has the empty extension |
| Utils.BaseOfFile | utils/utils.go:16 | the base of `dir/file` is `file` for a non-empty `file` without '/' |
| Utils.BookNameOfFileUrl | utils/utils.go:15-17 | the title of `file://path` is the base of `path` without its extension |
| Utils.TitleOfDottedFile | utils/utils.go:16-17 | the base of `dir/name.ext`, without its extension, is `name` |
| Utils.TitleOfUndottedFile | utils/utils.go:16-17 | the base of `dir/name` for a name without '.' is `name` |
| Utils.BookNameOfFileWithExtension | utils/utils.go:14-19 | `file://dir/name.ext` names the book `name`, even when `name` contains dots |
| Utils.BookNameOfFileWithoutExtension | utils/utils.go:14-19 | `file://dir/name` names the book `name` when `name` has no '.' |
| Utils.BookNameExampleEpub | utils/utils_test.go:14 | "file:///mnt/onboard/MyBook.epub" gives "MyBook" |
| Utils.BookNameExampleWithSpace | utils/utils_test.go:15 | "file:///mnt/onboard/My Book.epub" gives "My Book" |
| Utils.BookNameExampleInFolder | utils/utils_test.go:16 | "file:///mnt/onboard/Folder/MyBook.pdf" gives "MyBook" |
| Utils.BookNameExampleNoExtension | utils/utils_test.go:17 | "file:///mnt/onboard/Folder/MyBook" gives "MyBook" |
| Utils.NewBookmarksMembers | utils/utils.go:22-30 | a bookmark survives the filter exactly when it is in the input and its id is not known; the result is no longer than the input |
| Utils.NewBookmarksAppend | utils/utils.go:24-28 | filtering distributes over concatenation, so survivors keep their input order |
| Utils.FilterNewBookmarks | utils/utils.go:22-30 | the loop returns exactly the filtered sequence `NewBookmarks` |
| Utils.FilterExample | utils/utils_test.go:28-55 | ids 1, 2, 3 against the known id 2 give the bookmarks 1 and 3, in that order |
| Utils.NormalizeDate | utils/utils.go:37-39 | the result ends in "Z"; it is the input if that already ends in "Z", else the input plus "Z" |
| Utils.NormalizeDateIdempotent | utils/utils.go:37-39 | normalising twice is normalising once |
| Utils.ParseKoboBookmarkDate | utils/utils.go:32-47 | the empty date error exactly for ""; any other error is the parser's rejection; success exactly when the parser accepts the normalised date, with its value |
| Utils.DateWithoutZoneIsUtc | utils/utils_test.go:63-64 | a date without "Z" parses exactly as the same date with "Z" |
| Utils.ChunksFlatten | utils/utils.go:55-65 | the chunks concatenate back to the input |
| Utils.ChunksSizes | utils/utils.go:58-64 | every chunk has 1 to `chunkSize` code points, and all but the last have exactly `chunkSize` |
| Utils.ChunksEmpty | utils/utils.go:58 | there are no chunks exactly when the text is empty |
| Utils.ChunksExample | utils/utils.go:50-66 | 4500 code points at size 2000 give chunks of 2000, 2000 and 500, in order |
| Utils.SplitText | utils/utils.go:50-66 | the loop returns exactly `SplitChunks`, which is empty for a size of 0 or less |
| Utils.ContainsEmpty | utils/utils.go:70 | the empty string occurs in every string |
| Utils.ContainsSuffix | utils/utils.go:70 | `b` occurs in `a + b` |
| Utils.ContainsBlockRichText | utils/utils.go:68-75 | true exactly when some block's text contains the given text |
| Utils.ContainsBlockRichTextEmpty | utils/utils.go:68-75 | the empty text is found exactly when there is at least one block |
| Utils.ContainsBookmark | utils/utils.go:77-87 | true exactly when some bookmark's non-empty text or non-empty annotation occurs in the text |
| Utils.ContainsBookmarkIgnoresEmpty | utils/utils.go:79-84 | a bookmark with both fields empty never matches |
| Config.GetConfigWithLoader | config/config.go:49-64 | an error exactly when one of the three required keys is empty; then the zero configuration; otherwise each field is the value of its key |
| Config.CertPathOptional | config/config.go:55-64 | with the three required keys set, the configuration is accepted whatever CERT_PATH holds, and keeps that value |
| Config.AllValuesPresent | config/config_test.go:80-106 | the four test values give exactly that configuration and no error |
| Config.OneRequiredValueMissing | config/config_test.go:120-176 | leaving out any one required key gives the zero configuration and an error |
| Store.CursorAt | notion/blocks.go:33 | the cursor for a position is a run of that many '#' characters |
| Store.DecodeCursor | notion/blocks.go:17-19 | a decoded cursor is the cursor of the position it decodes to |
| Store.CursorRoundTrip | notion/blocks.go:17-19 | decoding the cursor of a position gives that position |
| Store.ListingPage | notion/blocks.go:21-33 | a listing page is the next slice of the children, non-empty unless none are left, with "more" exactly when items remain and then the cursor of the next position |
| Store.NotionStore.Get | notion/add_grouped.go:83 | only an existing page can be fetched; a missing one gives not-found |
| Store.NotionStore.GetChildren | notion/blocks.go:21-24 | a successful listing is the listing page of the page's children at the cursor's position; a missing page gives not-found |
| Store.NotionStore.Create | notion/add_grouped.go:193-196 | on success a page under a fresh identifier with the given properties and children, and nothing else changed; on failure nothing changed |
| Store.NotionStore.AppendChildren | notion/add_grouped.go:130-136 | on success the blocks follow the page's children, and nothing else changed; on failure nothing changed |
| Blocks.PaletteKeys | notion/blocks.go:41-50 | the palette's keys are exactly the one-digit strings "0" to "7" |
| Blocks.LabelColor | notion/blocks.go:72 | the palette's colour for a key in the palette and the zero colour for any other key; a non-zero colour exactly for the keys "0" to "7" |
| Blocks.BookmarkBlocks | notion/blocks.go:40-152 | the blocks of one bookmark; `Blocks.BookmarkBlocksShape` and `Blocks.BookmarkFieldsFound` state its properties, and `Blocks.CreateBookmarkBlocks` is the loop that builds it |
| Blocks.PlainRunsText | notion/blocks.go:82-89 | the chunk runs concatenate to the chunks concatenated |
| Blocks.FieldBlockText | notion/blocks.go:64-89 | the text of a field block is its heading, a line break and the whole field |
| Blocks.FieldBlockRuns | notion/blocks.go:64-89 | a field block is a bold heading in the bookmark's colour, an unstyled line break, and one unstyled run of 1 to 2000 code points per chunk, with chunk runs exactly when the field is non-empty |
| Blocks.BookmarkBlocksShape | notion/blocks.go:52-54 | one block per non-empty field, the highlight before the annotation, each block's text its heading, a line break and the field |
| Blocks.BookmarkFieldsFound | notion/blocks.go:74-89 | each non-empty field is found in the blocks the bookmark renders to |
| Blocks.CreateBookmarkBlocks | notion/blocks.go:40-152 | the loops build exactly `BookmarkBlocks`: a "Highlighted Text" block for a non-empty text, then an "Annotation" block for a non-empty annotation |
| Blocks.GetAllBlocksFromPage | notion/blocks.go:11-37 | on success exactly the page's children, complete and in order; a missing page is an error |
| Query.QueryChainPrefix | notion/query.go:13-16 | two cursor chains of a database agree position by position |
| Query.QueryChainUnique | notion/query.go:25-28 | the endpoint determines the cursor chain of a database |
| Query.RowBookmarkIds | notion/query.go:37-40 | the ids one row records, from its "Bookmark ID" rich-text property; `Query.BookmarkIdsOfMembers` states what is collected |
| Query.BookmarkIdsOfMembers | notion/query.go:35-43 | an id is collected exactly when some row's "Bookmark ID" rich-text property holds a run with that text |
| Query.BookmarkIdsOfAppend | notion/query.go:8-32 | collecting over two runs of rows is the union of collecting over each |
| Query.ExtractBookmarkIDs | notion/query.go:35-43 | the known ids grow by exactly the ids of the response's rows |
| Query.GetBookmarkIDs | notion/query.go:8-32 | fails exactly when the last request of the chain fails; otherwise the ids of every row of the chain |
| Query.TwoPageBookmarkIds | notion/notion_test.go:118-188 | two responses joined by "cursor1" form the chain "" then "cursor1", which collects both ids |
| Query.TitleOf | notion/query.go:63-64 | the title of one row, from the first run of its "Book Title" property; `Query.TitleIndexLookup` states what is indexed |
| Query.TitleIndexAppend | notion/query.go:46-76 | indexing two runs of rows is indexing the second after the first |
| Query.TitleIndexLookup | notion/query.go:61-66 | a title is indexed exactly when some row has it, mapped to the page of the last row that has it |
| Query.GetPagesByBookName | notion/query.go:46-76 | fails exactly when the last request fails (`PagesIndex`); otherwise the title index over every row of the chain |
| AddGrouped.OfBookMembers | notion/add_grouped.go:37-40 | a bookmark is in the subsequence of book `t` exactly when it is an input bookmark whose title is `t` |
| AddGrouped.GroupsAt | notion/add_grouped.go:37-40 | a book has a group exactly when it has bookmarks, and the group is their subsequence in input order |
| AddGrouped.GroupsSpec | notion/add_grouped.go:37-40 | the groups are keyed by exactly the titles that occur, each holding that title's bookmarks in input order |
| AddGrouped.GroupsAreBooks | notion/add_grouped.go:37-40 | every group is non-empty and holds only input bookmarks of its title |
| AddGrouped.GroupByBook | notion/add_grouped.go:36-40 | the grouping loop builds exactly `Groups` |
| AddGrouped.IsSyncedAsWritten | notion/add_grouped.go:98 | the skip test as written; `AddGrouped.AsWrittenDropsHalfEmptyBookmark` and `AddGrouped.SyncedImpliesSyncedAsWritten` state its properties |
| AddGrouped.IsSynced | notion/add_grouped.go:98 | the corrected skip test, which checks only non-empty fields; `AddGrouped.NewContentNotDropped` states its property |
| AddGrouped.BlocksToAppend | notion/add_grouped.go:95-104 | the add list of an update under a given skip test; `AddGrouped.BlocksToAppendNoneSkipped`, `AddGrouped.BlocksToAppendAllSkipped` and `AddGrouped.UnskippedAppended` state its properties |
| AddGrouped.AsWrittenDropsHalfEmptyBookmark | notion/add_grouped.go:98 | with the skip test as written, a bookmark with one empty field is skipped on any page with blocks, although it renders to blocks |
| AddGrouped.NewContentNotDropped | notion/add_grouped.go:96-104 | with the corrected skip test, a bookmark none of whose non-empty fields is on the page is appended in full |
| AddGrouped.SyncedImpliesSyncedAsWritten | notion/add_grouped.go:98 | the corrected test skips no more than the test as written |
| AddGrouped.BlocksToAppendNoneSkipped | notion/add_grouped.go:95-104 | when nothing is skipped, the add list is all the bookmarks' blocks in order |
| AddGrouped.EmptyPageGetsAll | notion/add_grouped.go:89-104 | on a page without blocks, or after a failed listing, either test appends every bookmark's blocks |
| AddGrouped.BlocksToAppendAllSkipped | notion/add_grouped.go:95-104 | when every bookmark is skipped or renders to nothing, the add list is empty |
| AddGrouped.UnskippedAppended | notion/add_grouped.go:102-103 | the blocks of a bookmark that is not skipped are in the add list |
| AddGrouped.ContainsInSuperset | notion/add_grouped.go:98 | text found in some blocks is found in any collection that contains them |
| AddGrouped.UpdateIdempotent | notion/add_grouped.go:94-104 | with the skip test as written, a second update right after an update appends nothing |
| AddGrouped.UpdateIdempotentCorrected | notion/add_grouped.go:94-104 | with the corrected skip test, a second update right after an update appends nothing |
| AddGrouped.UpdateAfterCreateAppendsNothing | notion/add_grouped.go:222-225 | updating a page created from the same bookmarks appends nothing, under either skip test |
| AddGrouped.UpdateBookPage | notion/add_grouped.go:77-144 | empty input fails with no-bookmarks; on failure nothing changed; on success the page existed and gained, in one append, the add list of the skip test as written, or every bookmark's blocks when the listing failed; no page is added |
| AddGrouped.CreateBookPage | notion/add_grouped.go:147-200 | a bad date fails with its parse error and changes nothing; on success one new page, titled and named after the book, dated by the bookmark, holding its blocks |
| AddGrouped.CreateBookPageWithBookmarks | notion/add_grouped.go:203-267 | empty input and a bad first date fail, changing nothing; on success one new page, titled after and dated by the first bookmark, holding all the bookmarks' blocks in order |
| AddGrouped.AppendBookmarkToPage | notion/add_grouped.go:270-294 | on success the bookmark's blocks follow the page's children, even if reading the page back fails; on failure nothing changed |
| AddGrouped.AddBookmark | notion/add_grouped.go:12-31 | an index failure is returned; a book in the index gets the bookmark appended to its page; any other book gets a new page |
| AddGrouped.NewBookPageGrows | notion/add_grouped.go:49-68 | a created page that only gains blocks at the end is still a valid new book page |
| AddGrouped.NewPagesHandledGrown | notion/add_grouped.go:49-59 | updates in place keep every added page a new book page of a handled book |
| AddGrouped.SyncedStepIndexed | notion/add_grouped.go:50-59 | handling a book that has a page keeps the sync invariant, with that book handled |
| AddGrouped.NewPagesAdded | notion/add_grouped.go:60-67 | creating the page of an unhandled book keeps every added page a new book page of a handled book |
| AddGrouped.TitlesDistinctAdded | notion/add_grouped.go:60-67 | creating the page of an unhandled book keeps the added pages' titles distinct |
| AddGrouped.SyncedStepCreated | notion/add_grouped.go:60-67 | creating the page of an unhandled book keeps the sync invariant |
| AddGrouped.SyncedStep | notion/add_grouped.go:49-71 | handling one more book, whatever its outcome, keeps the sync invariant |
| AddGrouped.SyncBook | notion/add_grouped.go:50-68 | one book's step: at most its indexed page grows, or at most one page is created for it; a failure is dropped |
| AddGrouped.AddBookmarks | notion/add_grouped.go:34-74 | fails exactly when the page index fails, then with nothing changed. On success the sync invariant holds for all books: no page was lost and pages only grew; each created page belongs to a distinct grouped book without an indexed page, with that book's first date and all its blocks; only indexed pages of grouped books changed |

## Left out

- kobo/kobo.go reads the Kobo SQLite database, which is I/O. Only the `Bookmark` record is modelled.
- The mapping of a NULL annotation to "None" (kobo/kobo.go:52) is not part of this model.
- utils/ssl.go, logger/logger.go, notion/core.go (client construction and setters), notion/notion.go and main.go are I/O and start-up code. They are not part of this model; only the property names of notion/core.go are used.
- Logging is left out; every log call is dropped.
- RFC 3339 parsing (`time.Parse`) is a foreign call. It is the parameter `rfc3339`, a partial function from string to instant. Only the empty check and the "Z" normalisation are modelled.
- JSON, HTTP, contexts and the notionapi types are not modelled.
  - A block is a quote holding rich-text runs, and its text is taken to be its runs concatenated.
  - A run's content stands for its plain text.
- Strings are sequences of code points. Go's UTF-8 decoding into runes, including the replacement of invalid bytes, is not modelled.
- Block deletion is commented out in the source (notion/add_grouped.go:107-126), and no archive step exists. Neither is modelled.
- The order in which Go visits the groups is unspecified. The model picks books in an arbitrary order, and its properties hold for every order.
- Store.NotionStore: each remote call succeeds or fails unpredictably. Rate limits, retries and partial failures inside one call are not modelled.
  - The store keeps only the pages created through it, with their database, title, book name, date and children.
  - The query endpoint is a separate fixed function, so pages created during a run do not show up in later queries of that run.
  - An index entry may name a page the store does not hold; updating or appending to it then fails with not-found.
- Store.NotionStore.GetChildren lists honestly: it only hands out an empty cursor on the last listing page.
  - notion/blocks.go:29-33 follows the cursor after every page that reports more and never checks it for emptiness.
  - An endpoint that reports more with an empty cursor would make `getAllBlocksFromPage` repeat the first request forever. The model does not capture that non-termination.
- The limit of 100 children per Notion request is not modelled. One append or one create carries any number of blocks.
- Query.GetBookmarkIDs and Query.GetPagesByBookName require a finite cursor chain (a ghost parameter). An endpoint whose chain never ends makes the Go loops run forever; that case is not modelled.
- Query.ExtractBookmarkIDs: the Go map of known ids, mutated in place, is a set that the method returns. The value stored in the map, always `true`, carries no information.
- Utils.Base and Utils.Ext split paths on `/` only, as Go's path/filepath does on Unix. On Windows filepath also splits on `\` and handles volume names; that is not modelled.
- AddGrouped.AddBookmarks does not state which blocks each updated page received. It states that indexed pages only grew, and `AddGrouped.UpdateBookPage` states what one update appends.
- AddGrouped.IsNewBookPage says that a created page STARTS with the blocks of its group rather than equals them. The index is not re-read during the run, so a later book's index entry could name the page just created and append to it. The prefix form covers that case.
- The "Bookmark ID" and "Type" properties are not modelled, because the page-creating functions never set them.

## Findings

| source | as written | input that shows it | evidently intended | confidence | as-written member | corrected member |
|---|---|---|---|---|---|---|
| notion/add_grouped.go:98 | a bookmark is skipped when `ContainsBlockRichText(Text)` or `ContainsBlockRichText(Annotation)` holds, and an empty field is contained in every block | a page with one block, and a new bookmark with text "" and annotation "a new note" (or a new highlight without a note) | skip only when a NON-EMPTY field is already on the page, as `ContainsBookmark` (utils/utils.go:79-84) guards its fields | not executed | AddGrouped.AsWrittenDropsHalfEmptyBookmark | AddGrouped.NewContentNotDropped |

`AddGrouped.IsSyncedAsWritten` is the skip test as written.
`AddGrouped.AsWrittenDropsHalfEmptyBookmark` shows that on any page with a
block it skips a bookmark with one empty field, although that bookmark
renders to a block. The corrected test `AddGrouped.IsSynced` checks only
non-empty fields. `AddGrouped.NewContentNotDropped` proves that new content
is then appended in full, and `AddGrouped.UpdateIdempotentCorrected` proves
that a second update still appends nothing. The operations
(`AddGrouped.UpdateBookPage`, `AddGrouped.SyncBook`, `AddGrouped.AddBookmarks`)
use the test as written, for which `AddGrouped.UpdateIdempotent` proves the
same idempotence.
