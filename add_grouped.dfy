/** notion/add_grouped.go: bookmarks grouped per book, one page per book,
    new blocks appended to an existing page, everything else created. */
module AddGrouped {
  import opened Wrappers
  import opened Kobo
  import opened NotionTypes
  import opened Utils
  import opened Store
  import opened Blocks
  import opened Query

  /** The book a bookmark belongs to. */
  function BookOf(b: Bookmark): string
  {
    GetBookNameFromVolumeID(b.volumeId)
  }

  /** The blocks of a sequence of bookmarks, bookmark by bookmark, in order. */
  function RenderAll(bs: seq<Bookmark>): seq<Block>
  {
    if bs == [] then [] else RenderAll(bs[..|bs| - 1]) + BookmarkBlocks(bs[|bs| - 1])
  }

  lemma RenderAllPrefix(bs: seq<Bookmark>, i: nat)
    requires i < |bs|
    ensures RenderAll(bs[..i + 1]) == RenderAll(bs[..i]) + BookmarkBlocks(bs[i])
  {
    assert bs[..i + 1][..i] == bs[..i];
  }

  // ---------------------------------------------------------------------
  // Grouping by book
  // ---------------------------------------------------------------------

  /** The bookmarks of book `t`, in their original order. */
  function OfBook(bs: seq<Bookmark>, t: string): seq<Bookmark>
  {
    if bs == [] then []
    else OfBook(bs[..|bs| - 1], t) + (if BookOf(bs[|bs| - 1]) == t then [bs[|bs| - 1]] else [])
  }

  /** The grouping loop of AddBookmarks as a value: each bookmark appended
      to the entry of its book. */
  function Groups(bs: seq<Bookmark>): map<string, seq<Bookmark>>
  {
    if bs == [] then map[]
    else
      var g := Groups(bs[..|bs| - 1]);
      var b := bs[|bs| - 1];
      var t := BookOf(b);
      g[t := (if t in g then g[t] else []) + [b]]
  }

  lemma {:induction false} OfBookMembers(bs: seq<Bookmark>, t: string)
    ensures forall b :: b in OfBook(bs, t) <==> b in bs && BookOf(b) == t
    decreases |bs|
  {
    if bs != [] {
      var init := bs[..|bs| - 1];
      OfBookMembers(init, t);
      assert bs == init + [bs[|bs| - 1]];
    }
  }

  lemma {:induction false} GroupsAt(bs: seq<Bookmark>, t: string)
    ensures t in Groups(bs) <==> OfBook(bs, t) != []
    ensures t in Groups(bs) ==> Groups(bs)[t] == OfBook(bs, t)
    decreases |bs|
  {
    if bs != [] {
      GroupsAt(bs[..|bs| - 1], t);
    }
  }

  /** The groups are keyed by exactly the books that occur, and each group
      is the subsequence of that book's bookmarks. */
  lemma GroupsSpec(bs: seq<Bookmark>, t: string)
    ensures t in Groups(bs) <==> exists i :: 0 <= i < |bs| && BookOf(bs[i]) == t
    ensures t in Groups(bs) ==> Groups(bs)[t] == OfBook(bs, t)
  {
    GroupsAt(bs, t);
    OfBookMembers(bs, t);
    if OfBook(bs, t) != [] {
      assert OfBook(bs, t)[0] in OfBook(bs, t);
    }
  }

  /** Every group is non-empty and holds only bookmarks of its book. */
  lemma GroupsAreBooks(bs: seq<Bookmark>, t: string)
    requires t in Groups(bs)
    ensures Groups(bs)[t] != [] && forall b :: b in Groups(bs)[t] ==> b in bs && BookOf(b) == t
  {
    GroupsSpec(bs, t);
    OfBookMembers(bs, t);
    var i :| 0 <= i < |bs| && BookOf(bs[i]) == t;
    assert bs[i] in OfBook(bs, t);
  }

  /** One more bookmark joins the end of its book's group. */
  lemma GroupsPrefix(bs: seq<Bookmark>, i: nat)
    requires i < |bs|
    ensures var g := Groups(bs[..i]);
      Groups(bs[..i + 1]) == g[BookOf(bs[i]) := (if BookOf(bs[i]) in g then g[BookOf(bs[i])] else []) + [bs[i]]]
  {
    assert bs[..i + 1][..i] == bs[..i];
  }

  /** The grouping loop of AddBookmarks. */
  method GroupByBook(bookmarks: seq<Bookmark>) returns (groups: map<string, seq<Bookmark>>)
    ensures groups == Groups(bookmarks)
  {
    groups := map[];
    for i := 0 to |bookmarks|
      invariant groups == Groups(bookmarks[..i])
    {
      var bookName := BookOf(bookmarks[i]);
      GroupsPrefix(bookmarks, i);
      var group := if bookName in groups then groups[bookName] else [];
      groups := groups[bookName := group + [bookmarks[i]]];
    }
    assert bookmarks[..|bookmarks|] == bookmarks;
  }

  // ---------------------------------------------------------------------
  // The skip test of updateBookPage
  // ---------------------------------------------------------------------

  /** The skip test as written: the text or the annotation occurs in some
      current block. An empty field occurs in every block. */
  predicate IsSyncedAsWritten(b: Bookmark, current: seq<Block>)
  {
    ContainsBlockRichText(b.text, current) || ContainsBlockRichText(b.annotation, current)
  }

  /** The skip test as intended: a NON-EMPTY text or annotation occurs in
      some current block (the guard ContainsBookmark applies). */
  predicate IsSynced(b: Bookmark, current: seq<Block>)
  {
    (b.text != "" && ContainsBlockRichText(b.text, current))
      || (b.annotation != "" && ContainsBlockRichText(b.annotation, current))
  }

  /** The blocks an update appends: those of every bookmark the skip test
      `synced` does not pass over, in order. */
  function BlocksToAppend(bs: seq<Bookmark>, current: seq<Block>, synced: (Bookmark, seq<Block>) -> bool): seq<Block>
  {
    if bs == [] then []
    else
      BlocksToAppend(bs[..|bs| - 1], current, synced)
        + (if synced(bs[|bs| - 1], current) then [] else BookmarkBlocks(bs[|bs| - 1]))
  }

  /** With the skip test as written, a bookmark with one empty field is
      never appended to a page that has any block, although it renders to
      blocks. */
  lemma AsWrittenDropsHalfEmptyBookmark(b: Bookmark, current: seq<Block>)
    requires current != []
    requires b.text == "" || b.annotation == ""
    requires b.text != "" || b.annotation != ""
    ensures IsSyncedAsWritten(b, current)
    ensures BookmarkBlocks(b) != [] && BlocksToAppend([b], current, IsSyncedAsWritten) == []
  {
    ContainsBlockRichTextEmpty(current);
    assert [b][..0] == [];
  }

  /** With the corrected skip test, a bookmark none of whose non-empty
      fields is on the page is appended in full. */
  lemma NewContentNotDropped(b: Bookmark, current: seq<Block>)
    requires b.text == "" || !ContainsBlockRichText(b.text, current)
    requires b.annotation == "" || !ContainsBlockRichText(b.annotation, current)
    ensures !IsSynced(b, current)
    ensures BlocksToAppend([b], current, IsSynced) == BookmarkBlocks(b)
  {
    assert [b][..0] == [];
  }

  /** The corrected test skips no more than the test as written. */
  lemma SyncedImpliesSyncedAsWritten(b: Bookmark, current: seq<Block>)
    ensures IsSynced(b, current) ==> IsSyncedAsWritten(b, current)
  {
  }

  lemma {:induction false} BlocksToAppendNoneSkipped(bs: seq<Bookmark>, current: seq<Block>, synced: (Bookmark, seq<Block>) -> bool)
    requires forall i :: 0 <= i < |bs| ==> !synced(bs[i], current)
    ensures BlocksToAppend(bs, current, synced) == RenderAll(bs)
    decreases |bs|
  {
    if bs != [] {
      BlocksToAppendNoneSkipped(bs[..|bs| - 1], current, synced);
    }
  }

  /** On a page without blocks either test skips nothing: every bookmark is
      appended, as on a freshly created page. */
  lemma EmptyPageGetsAll(bs: seq<Bookmark>)
    ensures BlocksToAppend(bs, [], IsSynced) == RenderAll(bs)
    ensures BlocksToAppend(bs, [], IsSyncedAsWritten) == RenderAll(bs)
  {
    BlocksToAppendNoneSkipped(bs, [], IsSynced);
    BlocksToAppendNoneSkipped(bs, [], IsSyncedAsWritten);
  }

  lemma {:induction false} BlocksToAppendAllSkipped(bs: seq<Bookmark>, current: seq<Block>, synced: (Bookmark, seq<Block>) -> bool)
    requires forall i :: 0 <= i < |bs| ==> synced(bs[i], current) || BookmarkBlocks(bs[i]) == []
    ensures BlocksToAppend(bs, current, synced) == []
    decreases |bs|
  {
    if bs != [] {
      BlocksToAppendAllSkipped(bs[..|bs| - 1], current, synced);
    }
  }

  lemma {:induction false} UnskippedAppended(bs: seq<Bookmark>, current: seq<Block>, synced: (Bookmark, seq<Block>) -> bool, i: nat)
    requires i < |bs| && !synced(bs[i], current)
    ensures forall blk :: blk in BookmarkBlocks(bs[i]) ==> blk in BlocksToAppend(bs, current, synced)
    decreases |bs|
  {
    if i < |bs| - 1 {
      UnskippedAppended(bs[..|bs| - 1], current, synced, i);
    }
  }

  lemma ContainsInSuperset(text: string, a: seq<Block>, b: seq<Block>)
    requires forall blk :: blk in a ==> blk in b
    ensures ContainsBlockRichText(text, a) ==> ContainsBlockRichText(text, b)
  {
    if ContainsBlockRichText(text, a) {
      var i :| 0 <= i < |a| && Contains(BlockText(a[i]), text);
      assert a[i] in b;
    }
  }

  /** Updating twice appends nothing the second time, with the skip test
      the update runs: after the blocks of the first update are on the
      page, every bookmark that renders to anything is skipped. */
  lemma UpdateIdempotent(bs: seq<Bookmark>, current: seq<Block>)
    ensures BlocksToAppend(bs, current + BlocksToAppend(bs, current, IsSyncedAsWritten), IsSyncedAsWritten) == []
  {
    var added := BlocksToAppend(bs, current, IsSyncedAsWritten);
    var after := current + added;
    forall i | 0 <= i < |bs|
      ensures IsSyncedAsWritten(bs[i], after) || BookmarkBlocks(bs[i]) == []
    {
      var b := bs[i];
      if IsSyncedAsWritten(b, current) {
        ContainsInSuperset(b.text, current, after);
        ContainsInSuperset(b.annotation, current, after);
      } else {
        UnskippedAppended(bs, current, IsSyncedAsWritten, i);
        BookmarkFieldsFound(b);
        ContainsInSuperset(b.text, BookmarkBlocks(b), after);
        ContainsInSuperset(b.annotation, BookmarkBlocks(b), after);
      }
    }
    BlocksToAppendAllSkipped(bs, after, IsSyncedAsWritten);
  }

  /** The same with the corrected skip test. */
  lemma UpdateIdempotentCorrected(bs: seq<Bookmark>, current: seq<Block>)
    ensures BlocksToAppend(bs, current + BlocksToAppend(bs, current, IsSynced), IsSynced) == []
  {
    var added := BlocksToAppend(bs, current, IsSynced);
    var after := current + added;
    forall i | 0 <= i < |bs|
      ensures IsSynced(bs[i], after) || BookmarkBlocks(bs[i]) == []
    {
      var b := bs[i];
      if IsSynced(b, current) {
        ContainsInSuperset(b.text, current, after);
        ContainsInSuperset(b.annotation, current, after);
      } else {
        UnskippedAppended(bs, current, IsSynced, i);
        BookmarkFieldsFound(b);
        ContainsInSuperset(b.text, BookmarkBlocks(b), after);
        ContainsInSuperset(b.annotation, BookmarkBlocks(b), after);
      }
    }
    BlocksToAppendAllSkipped(bs, after, IsSynced);
  }

  /** Updating a page created from `bs` (whose children are RenderAll(bs))
      with the same bookmarks appends nothing, under either skip test. */
  lemma UpdateAfterCreateAppendsNothing(bs: seq<Bookmark>)
    ensures BlocksToAppend(bs, RenderAll(bs), IsSynced) == []
    ensures BlocksToAppend(bs, RenderAll(bs), IsSyncedAsWritten) == []
  {
    var page := RenderAll(bs);
    EmptyPageGetsAll(bs);
    forall i | 0 <= i < |bs|
      ensures IsSynced(bs[i], page) || BookmarkBlocks(bs[i]) == []
    {
      var b := bs[i];
      UnskippedAppended(bs, [], IsSynced, i);
      BookmarkFieldsFound(b);
      ContainsInSuperset(b.text, BookmarkBlocks(b), page);
      ContainsInSuperset(b.annotation, BookmarkBlocks(b), page);
    }
    BlocksToAppendAllSkipped(bs, page, IsSynced);
    BlocksToAppendAllSkipped(bs, page, IsSyncedAsWritten);
  }

  // ---------------------------------------------------------------------
  // The operations
  // ---------------------------------------------------------------------

  /** notion/add_grouped.go updateBookPage, with the skip test as written
      (IsSyncedAsWritten). The page must exist; if listing its blocks fails the update goes on
      as if the page were empty. All blocks go in one append request. */
  method UpdateBookPage(store: NotionStore, pageId: PageId, bookmarks: seq<Bookmark>) returns (r: Outcome)
    requires store.Valid()
    modifies store
    ensures store.Valid() && store.nextId == old(store.nextId)
    ensures bookmarks == [] ==> r == Fail(NoBookmarks)
    ensures r.Fail? ==> store.pages == old(store.pages)
    ensures r.Pass? ==> pageId in old(store.pages)
    ensures r.Pass? ==> (
      || store.pages == WithAppended(old(store.pages), pageId,
           BlocksToAppend(bookmarks, old(store.pages)[pageId].children, IsSyncedAsWritten))
      || store.pages == WithAppended(old(store.pages), pageId, RenderAll(bookmarks)))
  {
    if |bookmarks| == 0 {
      return Fail(NoBookmarks);
    }
    var got := store.Get(pageId);
    if got.Fail? {
      return got;
    }
    var listing := GetAllBlocksFromPage(store, pageId);
    var currentBlocks := if listing.Ok? then listing.value else [];
    var allBlocks: seq<Block> := [];
    for i := 0 to |bookmarks|
      invariant store.pages == old(store.pages) && store.nextId == old(store.nextId)
      invariant allBlocks == BlocksToAppend(bookmarks[..i], currentBlocks, IsSyncedAsWritten)
    {
      assert bookmarks[..i + 1][..i] == bookmarks[..i];
      if IsSyncedAsWritten(bookmarks[i], currentBlocks) {
        continue;
      }
      var blocks := CreateBookmarkBlocks(bookmarks[i]);
      allBlocks := allBlocks + blocks;
    }
    assert bookmarks[..|bookmarks|] == bookmarks;
    EmptyPageGetsAll(bookmarks);
    if |allBlocks| > 0 {
      var appended := store.AppendChildren(pageId, allBlocks);
      if appended.Fail? {
        return appended;
      }
    } else {
      assert store.pages[pageId].children + allBlocks == store.pages[pageId].children;
      assert store.pages == WithAppended(store.pages, pageId, allBlocks);
    }
    return Pass;
  }

  /** notion/add_grouped.go createBookPage: a page titled after the book,
      dated by the bookmark, holding the bookmark's blocks. */
  method CreateBookPage(store: NotionStore, databaseId: string, bookmark: Bookmark, rfc3339: string -> Option<Instant>)
    returns (r: Result<PageId>)
    requires store.Valid()
    modifies store
    ensures store.Valid()
    ensures ParseKoboBookmarkDate(bookmark.dateCreated, rfc3339).Err? ==>
      r == Err(ParseKoboBookmarkDate(bookmark.dateCreated, rfc3339).error)
    ensures r.Err? ==> store.pages == old(store.pages) && store.nextId == old(store.nextId)
    ensures r.Ok? ==> r.value == old(store.nextId) && r.value !in old(store.pages)
    ensures r.Ok? ==> ParseKoboBookmarkDate(bookmark.dateCreated, rfc3339).Ok?
    ensures r.Ok? ==> store.pages == old(store.pages)[r.value := PageData(databaseId, BookOf(bookmark),
      BookOf(bookmark), ParseKoboBookmarkDate(bookmark.dateCreated, rfc3339).value, BookmarkBlocks(bookmark))]
  {
    var bookName := BookOf(bookmark);
    var parsedDate := ParseKoboBookmarkDate(bookmark.dateCreated, rfc3339);
    if parsedDate.Err? {
      return Err(parsedDate.error);
    }
    var bookmarkBlocks := CreateBookmarkBlocks(bookmark);
    r := store.Create(databaseId, bookName, bookName, parsedDate.value, bookmarkBlocks);
  }

  /** notion/add_grouped.go createBookPageWithBookmarks: one page for a
      group, titled and dated by its first bookmark, holding the blocks of
      all the bookmarks in order. */
  method CreateBookPageWithBookmarks(store: NotionStore, databaseId: string, bookmarks: seq<Bookmark>,
                                     rfc3339: string -> Option<Instant>)
    returns (r: Outcome)
    requires store.Valid()
    modifies store
    ensures store.Valid()
    ensures bookmarks == [] ==> r == Fail(NoBookmarks)
    ensures bookmarks != [] && ParseKoboBookmarkDate(bookmarks[0].dateCreated, rfc3339).Err? ==>
      r == Fail(ParseKoboBookmarkDate(bookmarks[0].dateCreated, rfc3339).error)
    ensures r.Fail? ==> store.pages == old(store.pages) && store.nextId == old(store.nextId)
    ensures r.Pass? ==> bookmarks != [] && ParseKoboBookmarkDate(bookmarks[0].dateCreated, rfc3339).Ok?
    ensures r.Pass? ==> old(store.nextId) !in old(store.pages) && store.nextId > old(store.nextId)
    ensures r.Pass? ==> store.pages == old(store.pages)[old(store.nextId) := PageData(databaseId,
      BookOf(bookmarks[0]), BookOf(bookmarks[0]), ParseKoboBookmarkDate(bookmarks[0].dateCreated, rfc3339).value,
      RenderAll(bookmarks))]
  {
    if |bookmarks| == 0 {
      return Fail(NoBookmarks);
    }
    var firstBookmark := bookmarks[0];
    var bookName := BookOf(firstBookmark);
    var parsedDate := ParseKoboBookmarkDate(firstBookmark.dateCreated, rfc3339);
    if parsedDate.Err? {
      return Fail(parsedDate.error);
    }
    var allBlocks: seq<Block> := [];
    for i := 0 to |bookmarks|
      invariant store.pages == old(store.pages) && store.nextId == old(store.nextId)
      invariant allBlocks == RenderAll(bookmarks[..i])
    {
      RenderAllPrefix(bookmarks, i);
      var blocks := CreateBookmarkBlocks(bookmarks[i]);
      allBlocks := allBlocks + blocks;
    }
    assert bookmarks[..|bookmarks|] == bookmarks;
    var created := store.Create(databaseId, bookName, bookName, parsedDate.value, allBlocks);
    if created.Err? {
      return Fail(created.error);
    }
    return Pass;
  }

  /** notion/add_grouped.go appendBookmarkToPage: the bookmark's blocks go
      after the page's children. A failed read-back of the page after a
      successful append still succeeds, without the page. */
  method AppendBookmarkToPage(store: NotionStore, pageId: PageId, bookmark: Bookmark) returns (r: Result<Option<PageId>>)
    requires store.Valid()
    modifies store
    ensures store.Valid() && store.nextId == old(store.nextId)
    ensures r.Err? ==> store.pages == old(store.pages)
    ensures r.Ok? ==> pageId in old(store.pages)
    ensures r.Ok? ==> store.pages == WithAppended(old(store.pages), pageId, BookmarkBlocks(bookmark))
    ensures r.Ok? ==> r.value == None || r.value == Some(pageId)
  {
    var bookmarkBlocks := CreateBookmarkBlocks(bookmark);
    var appended := store.AppendChildren(pageId, bookmarkBlocks);
    if appended.Fail? {
      return Err(appended.error);
    }
    var page := store.Get(pageId);
    if page.Fail? {
      return Ok(None);
    }
    return Ok(Some(pageId));
  }

  /** notion/add_grouped.go AddBookmark: appends to the page of the
      bookmark's book when the index has one, creates the page otherwise. */
  method AddBookmark(store: NotionStore, databaseId: string, bookmark: Bookmark,
                     rfc3339: string -> Option<Instant>, ghost chain: seq<string>)
    returns (r: Result<Option<PageId>>)
    requires store.Valid() && IsQueryChain(store.query, databaseId, chain)
    modifies store
    ensures store.Valid()
    ensures PagesIndex(store.query, databaseId, chain).Err? ==>
      r == Err(PagesIndex(store.query, databaseId, chain).error)
    ensures r.Err? ==> store.pages == old(store.pages)
    ensures r.Ok? ==> PagesIndex(store.query, databaseId, chain).Ok?
    ensures r.Ok? && BookOf(bookmark) in PagesIndex(store.query, databaseId, chain).value ==>
      var pageId := PagesIndex(store.query, databaseId, chain).value[BookOf(bookmark)];
      pageId in old(store.pages) && store.pages == WithAppended(old(store.pages), pageId, BookmarkBlocks(bookmark))
    ensures r.Ok? && BookOf(bookmark) !in PagesIndex(store.query, databaseId, chain).value ==>
      r.value == Some(old(store.nextId)) && ParseKoboBookmarkDate(bookmark.dateCreated, rfc3339).Ok?
      && store.pages == old(store.pages)[old(store.nextId) := PageData(databaseId, BookOf(bookmark), BookOf(bookmark),
           ParseKoboBookmarkDate(bookmark.dateCreated, rfc3339).value, BookmarkBlocks(bookmark))]
  {
    var bookName := BookOf(bookmark);
    var bookPages := GetPagesByBookName(store, databaseId, chain);
    if bookPages.Err? {
      return Err(bookPages.error);
    }
    if bookName in bookPages.value {
      r := AppendBookmarkToPage(store, bookPages.value[bookName], bookmark);
      return;
    }
    var created := CreateBookPage(store, databaseId, bookmark, rfc3339);
    if created.Err? {
      return Err(created.error);
    }
    return Ok(Some(created.value));
  }

  /** A page AddBookmarks created: for a book with bookmarks but no page in
      the index, in the given database, titled and named after the book,
      dated by the group's first bookmark, and starting with the blocks of
      the whole group. */
  ghost predicate IsNewBookPage(p: PageData, databaseId: string, groups: map<string, seq<Bookmark>>,
                                index: map<string, PageId>, rfc3339: string -> Option<Instant>)
  {
    && p.title in groups && p.title !in index
    && p.database == databaseId && p.bookName == p.title
    && groups[p.title] != []
    && ParseKoboBookmarkDate(groups[p.title][0].dateCreated, rfc3339) == Ok(p.created)
    && RenderAll(groups[p.title]) <= p.children
  }

  /** What handling book `t` with bookmarks `group` does to the pages
      `before` when the store's next identifier is `next`: for a book in the
      index, no page is added and at most the indexed page changes, and
      only by gaining blocks at the end; for any other book, either nothing
      changes or one page is added under `next`, titled and named after the
      book, dated by the first bookmark and holding the group's blocks. */
  ghost predicate BookStep(before: map<PageId, PageData>, next: PageId, after: map<PageId, PageData>,
                           databaseId: string, t: string, group: seq<Bookmark>,
                           index: map<string, PageId>, rfc3339: string -> Option<Instant>)
  {
    if t in index then
      && after.Keys == before.Keys
      && Grown(before, after)
      && (forall id :: id in before && id != index[t] ==> after[id] == before[id])
    else
      || after == before
      || (&& next !in before
          && group != []
          && ParseKoboBookmarkDate(group[0].dateCreated, rfc3339).Ok?
          && after == before[next := PageData(databaseId, t, t,
               ParseKoboBookmarkDate(group[0].dateCreated, rfc3339).value, RenderAll(group))])
  }

  /** Every page added to `pages0` is a new book page of a book in `done`. */
  ghost predicate NewPagesHandled(pages0: map<PageId, PageData>, pages: map<PageId, PageData>, databaseId: string,
                                  groups: map<string, seq<Bookmark>>, index: map<string, PageId>,
                                  rfc3339: string -> Option<Instant>, done: set<string>)
  {
    forall id :: id in pages && id !in pages0 ==>
      IsNewBookPage(pages[id], databaseId, groups, index, rfc3339) && pages[id].title in done
  }

  /** No two pages added to `pages0` have the same title. */
  ghost predicate NewTitlesDistinct(pages0: map<PageId, PageData>, pages: map<PageId, PageData>)
  {
    forall id1, id2 ::
      (id1 in pages && id1 !in pages0 && id2 in pages && id2 !in pages0
       && pages[id1].title == pages[id2].title) ==> id1 == id2
  }

  /** A page of `pages0` changed only if it is the indexed page of a book in `done`. */
  ghost predicate ChangesIndexed(pages0: map<PageId, PageData>, pages: map<PageId, PageData>,
                                 index: map<string, PageId>, done: set<string>)
  {
    forall id :: id in pages0 && id in pages && pages[id] != pages0[id] ==>
      exists t :: t in done && t in index && index[t] == id
  }

  /** What AddBookmarks has done once the books in `done` are handled,
      starting from `pages0`: every page of `pages0` is still there and
      only grew; every added page is a new book page of a handled book, with
      at most one added page per title; and a page of `pages0` changed only
      if it is the indexed page of a handled book. */
  ghost predicate Synced(pages0: map<PageId, PageData>, pages: map<PageId, PageData>, databaseId: string,
                         groups: map<string, seq<Bookmark>>, index: map<string, PageId>,
                         rfc3339: string -> Option<Instant>, done: set<string>)
  {
    && Grown(pages0, pages)
    && NewPagesHandled(pages0, pages, databaseId, groups, index, rfc3339, done)
    && NewTitlesDistinct(pages0, pages)
    && ChangesIndexed(pages0, pages, index, done)
  }

  /** Appending to one page keeps the set of pages, grows that page and
      leaves every other page as it was. */
  lemma AppendIsGrowth(pages: map<PageId, PageData>, id: PageId, blocks: seq<Block>)
    requires id in pages
    ensures WithAppended(pages, id, blocks).Keys == pages.Keys
    ensures Grown(pages, WithAppended(pages, id, blocks))
    ensures forall other :: other in pages && other != id ==> WithAppended(pages, id, blocks)[other] == pages[other]
  {
    var after := WithAppended(pages, id, blocks);
    assert after[id].children == pages[id].children + blocks;
    assert after[id] == pages[id].(children := after[id].children);
  }

  /** Growth is transitive. */
  lemma GrownTransitive(a: map<PageId, PageData>, b: map<PageId, PageData>, c: map<PageId, PageData>)
    requires Grown(a, b) && Grown(b, c)
    ensures Grown(a, c)
  {
    forall id | id in a
      ensures id in c && a[id].children <= c[id].children
      ensures c[id] == a[id].(children := c[id].children)
    {
      assert id in b;
    }
  }

  /** A new book page that only gains blocks at the end stays one. */
  lemma NewBookPageGrows(p: PageData, q: PageData, databaseId: string, groups: map<string, seq<Bookmark>>,
                         index: map<string, PageId>, rfc3339: string -> Option<Instant>)
    requires IsNewBookPage(p, databaseId, groups, index, rfc3339)
    requires p.children <= q.children && q == p.(children := q.children)
    ensures IsNewBookPage(q, databaseId, groups, index, rfc3339)
  {
  }

  /** Growing pages in place, with no page added, keeps the added pages new
      book pages of handled books. */
  lemma NewPagesHandledGrown(pages0: map<PageId, PageData>, before: map<PageId, PageData>,
                             after: map<PageId, PageData>, databaseId: string,
                             groups: map<string, seq<Bookmark>>, index: map<string, PageId>,
                             rfc3339: string -> Option<Instant>, done: set<string>, done': set<string>)
    requires NewPagesHandled(pages0, before, databaseId, groups, index, rfc3339, done)
    requires after.Keys == before.Keys && Grown(before, after) && done <= done'
    ensures NewPagesHandled(pages0, after, databaseId, groups, index, rfc3339, done')
  {
    forall id | id in after && id !in pages0
      ensures IsNewBookPage(after[id], databaseId, groups, index, rfc3339) && after[id].title in done'
    {
      NewBookPageGrows(before[id], after[id], databaseId, groups, index, rfc3339);
    }
  }

  /** Handling an indexed book keeps Synced, with that book added to `done`. */
  lemma SyncedStepIndexed(pages0: map<PageId, PageData>, before: map<PageId, PageData>, after: map<PageId, PageData>,
                          databaseId: string, groups: map<string, seq<Bookmark>>, index: map<string, PageId>,
                          rfc3339: string -> Option<Instant>, done: set<string>, t: string)
    requires Synced(pages0, before, databaseId, groups, index, rfc3339, done)
    requires t in index
    requires after.Keys == before.Keys && Grown(before, after)
    requires forall id :: id in before && id != index[t] ==> after[id] == before[id]
    ensures Synced(pages0, after, databaseId, groups, index, rfc3339, done + {t})
  {
    var done' := done + {t};
    GrownTransitive(pages0, before, after);
    NewPagesHandledGrown(pages0, before, after, databaseId, groups, index, rfc3339, done, done');
    forall id | id in pages0 && id in after && after[id] != pages0[id]
      ensures exists t' :: t' in done' && t' in index && index[t'] == id
    {
      if before[id] != pages0[id] {
        var t' :| t' in done && t' in index && index[t'] == id;
        assert t' in done';
      } else {
        assert t in done' && index[t] == id;
      }
    }
  }

  /** Adding a new book page for a book not yet handled keeps the added
      pages handled. */
  lemma NewPagesAdded(pages0: map<PageId, PageData>, before: map<PageId, PageData>, next: PageId,
                      p: PageData, databaseId: string, groups: map<string, seq<Bookmark>>,
                      index: map<string, PageId>, rfc3339: string -> Option<Instant>, done: set<string>)
    requires NewPagesHandled(pages0, before, databaseId, groups, index, rfc3339, done)
    requires IsNewBookPage(p, databaseId, groups, index, rfc3339)
    ensures NewPagesHandled(pages0, before[next := p], databaseId, groups, index, rfc3339, done + {p.title})
  {
    var after := before[next := p];
    forall id | id in after && id !in pages0
      ensures IsNewBookPage(after[id], databaseId, groups, index, rfc3339) && after[id].title in done + {p.title}
    {
      if id != next {
        assert after[id] == before[id];
      }
    }
  }

  /** Adding a page whose title no added page has keeps the titles distinct. */
  lemma TitlesDistinctAdded(pages0: map<PageId, PageData>, before: map<PageId, PageData>, next: PageId,
                            p: PageData, done: set<string>)
    requires NewTitlesDistinct(pages0, before)
    requires forall id :: id in before && id !in pages0 ==> before[id].title in done
    requires next !in before && p.title !in done
    ensures NewTitlesDistinct(pages0, before[next := p])
  {
    var after := before[next := p];
    forall id1, id2 | id1 in after && id1 !in pages0 && id2 in after && id2 !in pages0
        && after[id1].title == after[id2].title
      ensures id1 == id2
    {
      if id1 != next && id2 != next {
        assert after[id1] == before[id1] && after[id2] == before[id2];
      }
    }
  }

  /** Adding a page under a fresh identifier keeps Synced, with its title
      added to `done`. */
  lemma SyncedStepCreated(pages0: map<PageId, PageData>, before: map<PageId, PageData>, next: PageId,
                          p: PageData, databaseId: string, groups: map<string, seq<Bookmark>>,
                          index: map<string, PageId>, rfc3339: string -> Option<Instant>, done: set<string>)
    requires Synced(pages0, before, databaseId, groups, index, rfc3339, done)
    requires next !in before && p.title !in done
    requires IsNewBookPage(p, databaseId, groups, index, rfc3339)
    ensures Synced(pages0, before[next := p], databaseId, groups, index, rfc3339, done + {p.title})
  {
    var after := before[next := p];
    assert Grown(before, after);
    GrownTransitive(pages0, before, after);
    NewPagesAdded(pages0, before, next, p, databaseId, groups, index, rfc3339, done);
    TitlesDistinctAdded(pages0, before, next, p, done);
    forall id | id in pages0 && id in after && after[id] != pages0[id]
      ensures exists t' :: t' in done + {p.title} && t' in index && index[t'] == id
    {
      var t' :| t' in done && t' in index && index[t'] == id;
    }
  }

  /** Handling one more book keeps Synced, with that book added to `done`. */
  lemma SyncedStep(pages0: map<PageId, PageData>, before: map<PageId, PageData>, next: PageId,
                   after: map<PageId, PageData>, databaseId: string,
                   groups: map<string, seq<Bookmark>>, index: map<string, PageId>,
                   rfc3339: string -> Option<Instant>, done: set<string>, t: string)
    requires Synced(pages0, before, databaseId, groups, index, rfc3339, done)
    requires t in groups && t !in done
    requires BookStep(before, next, after, databaseId, t, groups[t], index, rfc3339)
    ensures Synced(pages0, after, databaseId, groups, index, rfc3339, done + {t})
  {
    if t in index {
      SyncedStepIndexed(pages0, before, after, databaseId, groups, index, rfc3339, done, t);
    } else if after == before {
      assert Synced(pages0, after, databaseId, groups, index, rfc3339, done + {t});
    } else {
      var group := groups[t];
      var p := PageData(databaseId, t, t, ParseKoboBookmarkDate(group[0].dateCreated, rfc3339).value, RenderAll(group));
      assert IsNewBookPage(p, databaseId, groups, index, rfc3339);
      SyncedStepCreated(pages0, before, next, p, databaseId, groups, index, rfc3339, done);
    }
  }

  /** The body of AddBookmarks' loop for one book: update the indexed page
      or create a page for the book; a failure is logged and dropped. */
  method SyncBook(store: NotionStore, databaseId: string, bookName: string, bookBookmarks: seq<Bookmark>,
                  index: map<string, PageId>, rfc3339: string -> Option<Instant>)
    requires store.Valid()
    requires bookBookmarks != [] ==> BookOf(bookBookmarks[0]) == bookName
    modifies store
    ensures store.Valid()
    ensures BookStep(old(store.pages), old(store.nextId), store.pages, databaseId, bookName, bookBookmarks, index, rfc3339)
  {
    if bookName in index {
      var pageId := index[bookName];
      var updated := UpdateBookPage(store, pageId, bookBookmarks);
      if updated.Pass? {
        AppendIsGrowth(old(store.pages), pageId, BlocksToAppend(bookBookmarks, old(store.pages)[pageId].children, IsSyncedAsWritten));
        AppendIsGrowth(old(store.pages), pageId, RenderAll(bookBookmarks));
      }
    } else {
      var created := CreateBookPageWithBookmarks(store, databaseId, bookBookmarks, rfc3339);
    }
  }

  /** notion/add_grouped.go AddBookmarks: groups the bookmarks per book,
      reads the page index once, then per book (in no particular order)
      updates the indexed page or creates one. Only the index query can
      fail the call; a failure for one book leaves that book as it was and
      goes on with the others. Nothing is ever deleted. */
  method AddBookmarks(store: NotionStore, databaseId: string, bookmarks: seq<Bookmark>,
                      rfc3339: string -> Option<Instant>, ghost chain: seq<string>)
    returns (r: Outcome)
    requires store.Valid() && IsQueryChain(store.query, databaseId, chain)
    modifies store
    ensures store.Valid()
    ensures r.Fail? <==> PagesIndex(store.query, databaseId, chain).Err?
    ensures r.Fail? ==> store.pages == old(store.pages)
    ensures r.Pass? ==> Synced(old(store.pages), store.pages, databaseId, Groups(bookmarks),
      PagesIndex(store.query, databaseId, chain).value, rfc3339, Groups(bookmarks).Keys)
  {
    var groups := GroupByBook(bookmarks);
    var bookPages := GetPagesByBookName(store, databaseId, chain);
    if bookPages.Err? {
      return Fail(bookPages.error);
    }
    var index := bookPages.value;
    ghost var pages0 := store.pages;
    ghost var done: set<string> := {};
    var remaining := groups.Keys;
    while remaining != {}
      invariant store.Valid()
      invariant remaining + done == groups.Keys && remaining !! done
      invariant Synced(pages0, store.pages, databaseId, groups, index, rfc3339, done)
      decreases remaining
    {
      var bookName :| bookName in remaining;
      var bookBookmarks := groups[bookName];
      GroupsAreBooks(bookmarks, bookName);
      ghost var before := store.pages;
      ghost var next := store.nextId;
      SyncBook(store, databaseId, bookName, bookBookmarks, index, rfc3339);
      SyncedStep(pages0, before, next, store.pages, databaseId, groups, index, rfc3339, done, bookName);
      remaining := remaining - {bookName};
      done := done + {bookName};
    }
    return Pass;
  }
}
