/** notion/query.go: the paginated database queries that collect the
    bookmark ids already synced and the pages per book title. */
module Query {
  import opened Wrappers
  import opened NotionTypes
  import opened Store

  /** The database query endpoint's type: database id and cursor to a page of rows. */
  type QueryEndpoint = (string, string) -> Result<Response<Row>>

  /** A response after which both loops of query.go request another page:
      a successful one that reports more rows and gives a non-empty cursor. */
  predicate Continues(res: Result<Response<Row>>)
  {
    res.Ok? && res.value.hasMore && res.value.nextCursor != ""
  }

  /** The cursors a query loop sends to database `db`: "" first, then each
      response's cursor while the response continues, ending with a
      response that does not continue. Its existence is what makes a loop
      terminate; the endpoint decides it uniquely (QueryChainUnique). */
  predicate IsQueryChain(query: QueryEndpoint, db: string, chain: seq<string>)
  {
    && |chain| > 0
    && chain[0] == ""
    && (forall k :: 0 <= k < |chain| - 1 ==> Continues(query(db, chain[k])))
    && (forall k :: 0 <= k < |chain| - 1 ==> chain[k + 1] == query(db, chain[k]).value.nextCursor)
    && !Continues(query(db, chain[|chain| - 1]))
  }

  /** All rows returned for a sequence of cursors that were all answered. */
  function ChainRows(query: QueryEndpoint, db: string, chain: seq<string>): seq<Row>
    requires forall k :: 0 <= k < |chain| ==> query(db, chain[k]).Ok?
  {
    if chain == [] then []
    else ChainRows(query, db, chain[..|chain| - 1]) + query(db, chain[|chain| - 1]).value.results
  }

  lemma {:induction false} QueryChainPrefix(query: QueryEndpoint, db: string, c1: seq<string>, c2: seq<string>, k: nat)
    requires IsQueryChain(query, db, c1) && IsQueryChain(query, db, c2)
    requires k < |c1| && k < |c2|
    ensures c1[k] == c2[k]
  {
    if k > 0 {
      QueryChainPrefix(query, db, c1, c2, k - 1);
    }
  }

  /** The endpoint determines the cursor chain: two chains for the same
      database are equal. */
  lemma QueryChainUnique(query: QueryEndpoint, db: string, c1: seq<string>, c2: seq<string>)
    requires IsQueryChain(query, db, c1) && IsQueryChain(query, db, c2)
    ensures c1 == c2
  {
    forall k | 0 <= k < |c1| && k < |c2|
      ensures c1[k] == c2[k]
    {
      QueryChainPrefix(query, db, c1, c2, k);
    }
  }

  // ---------------------------------------------------------------------
  // extractBookmarkIDs, GetBookmarkIDs
  // ---------------------------------------------------------------------

  /** The bookmark ids a row records: the plain texts of the runs of its
      "Bookmark ID" property when that is a rich-text property. */
  function RowBookmarkIds(row: Row): set<string>
  {
    if PropBookmarkID in row.properties && row.properties[PropBookmarkID].RichTextProperty? then
      RunContents(row.properties[PropBookmarkID].richText)
    else
      {}
  }

  /** The contents of a sequence of runs, as a set. */
  function RunContents(runs: seq<RichText>): set<string>
  {
    set t | t in runs :: t.content
  }

  /** The ids recorded by a sequence of rows. */
  function BookmarkIdsOf(rows: seq<Row>): set<string>
  {
    if rows == [] then {}
    else BookmarkIdsOf(rows[..|rows| - 1]) + RowBookmarkIds(rows[|rows| - 1])
  }

  /** An id is collected exactly when some row records it. */
  lemma {:induction false} BookmarkIdsOfMembers(rows: seq<Row>, id: string)
    ensures id in BookmarkIdsOf(rows) <==> exists i :: 0 <= i < |rows| && id in RowBookmarkIds(rows[i])
    decreases |rows|
  {
    if rows != [] {
      var init := rows[..|rows| - 1];
      BookmarkIdsOfMembers(init, id);
      assert forall i :: 0 <= i < |init| ==> init[i] == rows[i];
    }
  }

  lemma {:induction false} BookmarkIdsOfAppend(a: seq<Row>, b: seq<Row>)
    ensures BookmarkIdsOf(a + b) == BookmarkIdsOf(a) + BookmarkIdsOf(b)
    decreases |b|
  {
    if b == [] {
      assert a + b == a;
    } else {
      var n := |b| - 1;
      assert (a + b)[..|a + b| - 1] == a + b[..n];
      assert (a + b)[|a + b| - 1] == b[n];
      BookmarkIdsOfAppend(a, b[..n]);
    }
  }

  /** notion/query.go extractBookmarkIDs: adds to `ids` every id recorded by
      the rows of `res` (the map of known ids is a set here). */
  method ExtractBookmarkIDs(res: Response<Row>, ids: set<string>) returns (ids': set<string>)
    ensures ids' == ids + BookmarkIdsOf(res.results)
  {
    ids' := ids;
    var rows := res.results;
    for i := 0 to |rows|
      invariant ids' == ids + BookmarkIdsOf(rows[..i])
    {
      var row := rows[i];
      assert rows[..i + 1][..i] == rows[..i];
      if PropBookmarkID in row.properties && row.properties[PropBookmarkID].RichTextProperty? {
        var runs := row.properties[PropBookmarkID].richText;
        for j := 0 to |runs|
          invariant ids' == ids + BookmarkIdsOf(rows[..i]) + RunContents(runs[..j])
        {
          assert runs[..j + 1] == runs[..j] + [runs[j]];
          ids' := ids' + {runs[j].content};
        }
        assert runs[..|runs|] == runs;
      }
    }
    assert rows[..|rows|] == rows;
  }

  /** notion/query.go GetBookmarkIDs: follows the cursor chain of database
      `databaseId` and collects the ids of every row; fails exactly when the
      last request of the chain fails. */
  method GetBookmarkIDs(store: NotionStore, databaseId: string, ghost chain: seq<string>)
    returns (r: Result<set<string>>)
    requires IsQueryChain(store.query, databaseId, chain)
    ensures r.Err? <==> store.query(databaseId, chain[|chain| - 1]).Err?
    ensures r.Ok? ==> r.value == BookmarkIdsOf(ChainRows(store.query, databaseId, chain))
  {
    var existing: set<string> := {};
    var startCursor := "";
    ghost var k := 0;
    while true
      invariant 0 <= k < |chain|
      invariant startCursor == chain[k]
      invariant existing == BookmarkIdsOf(ChainRows(store.query, databaseId, chain[..k]))
      decreases |chain| - k
    {
      var res := store.query(databaseId, startCursor);
      if res.Err? {
        return Err(res.error);
      }
      assert chain[..k + 1][..k] == chain[..k];
      BookmarkIdsOfAppend(ChainRows(store.query, databaseId, chain[..k]), res.value.results);
      existing := ExtractBookmarkIDs(res.value, existing);
      if !res.value.hasMore || res.value.nextCursor == "" {
        assert chain[..k + 1] == chain;
        break;
      }
      startCursor := res.value.nextCursor;
      k := k + 1;
    }
    return Ok(existing);
  }

  /** A row whose "Bookmark ID" property holds the single run `id`. */
  function RowWithBookmarkId(page: PageId, id: string): Row
  {
    Row(page, map[PropBookmarkID := RichTextProperty([RichText(id, None)])])
  }

  /** notion/notion_test.go, pagination: a first response with one row and
      cursor "cursor1", a second with one row and no more; the chain is
      "" then "cursor1" and both ids are collected. */
  lemma TwoPageBookmarkIds(query: QueryEndpoint, db: string)
    requires query(db, "") == Ok(Response([RowWithBookmarkId(1, "bookmark1")], true, "cursor1"))
    requires query(db, "cursor1") == Ok(Response([RowWithBookmarkId(2, "bookmark2")], false, ""))
    ensures IsQueryChain(query, db, ["", "cursor1"])
    ensures BookmarkIdsOf(ChainRows(query, db, ["", "cursor1"])) == {"bookmark1", "bookmark2"}
  {
    var chain := ["", "cursor1"];
    var r1 := RowWithBookmarkId(1, "bookmark1");
    var r2 := RowWithBookmarkId(2, "bookmark2");
    assert [""][..0] == [];
    assert ChainRows(query, db, [""]) == [r1];
    assert chain[..1] == [""] && chain[1] == "cursor1";
    assert ChainRows(query, db, chain) == [r1] + [r2];
    assert [r1] + [r2] == [r1, r2] && [r1, r2][..1] == [r1] && [r1][..0] == [];
    assert RowBookmarkIds(r1) == {"bookmark1"};
    assert RowBookmarkIds(r2) == {"bookmark2"};
  }

  // ---------------------------------------------------------------------
  // GetPagesByBookName
  // ---------------------------------------------------------------------

  /** The book title of a row: the plain text of the first run of its
      "Book Title" property, when that is a non-empty title property. */
  function TitleOf(row: Row): Option<string>
  {
    if PropBookTitle in row.properties && row.properties[PropBookTitle].TitleProperty?
      && |row.properties[PropBookTitle].title| > 0
    then Some(row.properties[PropBookTitle].title[0].content)
    else None
  }

  /** `index` extended, row by row, with each titled row's title mapped to
      its page; a later row overwrites an earlier one of the same title. */
  function TitleIndex(index: map<string, PageId>, rows: seq<Row>): map<string, PageId>
  {
    if rows == [] then index
    else
      var m := TitleIndex(index, rows[..|rows| - 1]);
      var row := rows[|rows| - 1];
      match TitleOf(row)
      case Some(t) => m[t := row.id]
      case None => m
  }

  lemma {:induction false} TitleIndexAppend(index: map<string, PageId>, a: seq<Row>, b: seq<Row>)
    ensures TitleIndex(index, a + b) == TitleIndex(TitleIndex(index, a), b)
    decreases |b|
  {
    if b == [] {
      assert a + b == a;
    } else {
      var n := |b| - 1;
      assert (a + b)[..|a + b| - 1] == a + b[..n];
      assert (a + b)[|a + b| - 1] == b[n];
      TitleIndexAppend(index, a, b[..n]);
    }
  }

  /** A title is in the index exactly when some row carries it, and it maps
      to the page of the LAST row that carries it. */
  lemma {:induction false} TitleIndexLookup(rows: seq<Row>, t: string)
    ensures t in TitleIndex(map[], rows) <==> exists i :: 0 <= i < |rows| && TitleOf(rows[i]) == Some(t)
    ensures t in TitleIndex(map[], rows) ==>
      exists i :: 0 <= i < |rows| && TitleOf(rows[i]) == Some(t) && TitleIndex(map[], rows)[t] == rows[i].id
        && forall j :: i < j < |rows| ==> TitleOf(rows[j]) != Some(t)
    decreases |rows|
  {
    if rows != [] {
      var n := |rows| - 1;
      var init := rows[..n];
      TitleIndexLookup(init, t);
      assert forall i :: 0 <= i < n ==> init[i] == rows[i];
      if TitleOf(rows[n]) == Some(t) {
        assert TitleIndex(map[], rows)[t] == rows[n].id;
      } else if t in TitleIndex(map[], rows) {
        var i :| 0 <= i < n && TitleOf(init[i]) == Some(t) && TitleIndex(map[], init)[t] == init[i].id
          && forall j :: i < j < n ==> TitleOf(init[j]) != Some(t);
        assert TitleIndex(map[], rows)[t] == rows[i].id;
      }
    }
  }

  /** The outcome of the page index for the chain: the error of its last
      request, or the title index over every row of the chain. */
  function PagesIndex(query: QueryEndpoint, db: string, chain: seq<string>): Result<map<string, PageId>>
    requires IsQueryChain(query, db, chain)
  {
    var last := query(db, chain[|chain| - 1]);
    if last.Err? then Err(last.error) else Ok(TitleIndex(map[], ChainRows(query, db, chain)))
  }

  /** notion/query.go GetPagesByBookName: follows the cursor chain of
      database `databaseId` and maps each book title to the page of the
      last row of that title; fails exactly when the last request fails. */
  method GetPagesByBookName(store: NotionStore, databaseId: string, ghost chain: seq<string>)
    returns (r: Result<map<string, PageId>>)
    requires IsQueryChain(store.query, databaseId, chain)
    ensures r == PagesIndex(store.query, databaseId, chain)
  {
    var bookPages: map<string, PageId> := map[];
    var startCursor := "";
    ghost var k := 0;
    while true
      invariant 0 <= k < |chain|
      invariant startCursor == chain[k]
      invariant bookPages == TitleIndex(map[], ChainRows(store.query, databaseId, chain[..k]))
      decreases |chain| - k
    {
      var res := store.query(databaseId, startCursor);
      if res.Err? {
        return Err(res.error);
      }
      var rows := res.value.results;
      ghost var before := bookPages;
      for i := 0 to |rows|
        invariant bookPages == TitleIndex(before, rows[..i])
      {
        var row := rows[i];
        assert rows[..i + 1][..i] == rows[..i];
        if PropBookTitle in row.properties && row.properties[PropBookTitle].TitleProperty?
          && |row.properties[PropBookTitle].title| > 0
        {
          var bookName := row.properties[PropBookTitle].title[0].content;
          bookPages := bookPages[bookName := row.id];
        }
      }
      assert rows[..|rows|] == rows;
      assert chain[..k + 1][..k] == chain[..k];
      TitleIndexAppend(map[], ChainRows(store.query, databaseId, chain[..k]), rows);
      if !res.value.hasMore || res.value.nextCursor == "" {
        assert chain[..k + 1] == chain;
        break;
      }
      startCursor := res.value.nextCursor;
      k := k + 1;
    }
    return Ok(bookPages);
  }
}
