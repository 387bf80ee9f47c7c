/** The remote Notion workspace as the engine sees it through its three
    clients (database, page and block). The store keeps the pages created
    through it with their child blocks. Every remote call may fail for
    reasons the engine cannot see (network, rate limits), which the model
    leaves as a nondeterministic outcome. */
module Store {
  import opened Wrappers
  import opened NotionTypes

  /** What the store keeps of a page created in a database: the "Book Title"
      and "Book Name" properties, the "Date Created" start and the children. */
  datatype PageData = PageData(
    database: string,
    title: string,
    bookName: string,
    created: Instant,
    children: seq<Block>)

  /** The continuation cursor the store hands out for listing position
      `offset`: a run of `offset` '#' characters, so position 0 is the
      request without a cursor. */
  function CursorAt(offset: nat): (c: string)
    ensures |c| == offset
    ensures forall i :: 0 <= i < |c| ==> c[i] == '#'
  {
    seq(offset, _ => '#')
  }

  /** The listing position a cursor stands for, if it is one of the store's. */
  function DecodeCursor(c: string): (r: Option<nat>)
    ensures r.Some? ==> CursorAt(r.value) == c
  {
    if forall i :: 0 <= i < |c| ==> c[i] == '#' then Some(|c|) else None
  }

  lemma CursorRoundTrip(offset: nat)
    ensures DecodeCursor(CursorAt(offset)) == Some(offset)
  {
  }

  /** The page of a listing that starts at `offset`: at most `size` items,
      "more" exactly when items are left, and then the cursor of the next
      position. */
  function ListingPage<T>(items: seq<T>, offset: nat, size: nat): (r: Response<T>)
    requires offset <= |items| && size > 0
    ensures offset + |r.results| <= |items|
    ensures r.results == items[offset..offset + |r.results|]
    ensures r.results != [] || offset == |items|
    ensures r.hasMore <==> offset + |r.results| < |items|
    ensures r.hasMore ==> |r.results| == size && r.nextCursor == CursorAt(offset + size)
    ensures !r.hasMore ==> r.nextCursor == ""
  {
    var end := if offset + size < |items| then offset + size else |items|;
    Response(items[offset..end], end < |items|, if end < |items| then CursorAt(end) else "")
  }

  /** `pages` with `blocks` added after the children of page `id`. */
  function WithAppended(pages: map<PageId, PageData>, id: PageId, blocks: seq<Block>): map<PageId, PageData>
    requires id in pages
  {
    pages[id := pages[id].(children := pages[id].children + blocks)]
  }

  /** `after` keeps every page of `before` with the same properties, and
      each page's children only gained blocks at the end. */
  ghost predicate Grown(before: map<PageId, PageData>, after: map<PageId, PageData>)
  {
    forall id :: id in before ==>
      id in after && before[id].children <= after[id].children
      && after[id] == before[id].(children := after[id].children)
  }

  class NotionStore {
    /** The database query endpoint: for a database id and a cursor ("" for
        the first request) one page of rows, or an error. Fixed for the
        store's lifetime. */
    const query: (string, string) -> Result<Response<Row>>
    /** How many children one listing request returns at most. */
    const pageSize: nat
    /** The pages created through the store and their children. */
    var pages: map<PageId, PageData>
    /** The next identifier the store hands out. */
    var nextId: PageId

    ghost predicate Valid()
      reads this
    {
      pageSize > 0 && forall id :: id in pages ==> id < nextId
    }

    constructor (query: (string, string) -> Result<Response<Row>>, pageSize: nat)
      requires pageSize > 0
      ensures Valid()
      ensures this.query == query && this.pageSize == pageSize && pages == map[]
    {
      this.query := query;
      this.pageSize := pageSize;
      pages := map[];
      nextId := 0;
    }

    /** pageClient.Get: only an existing page can be fetched. */
    method Get(id: PageId) returns (r: Outcome)
      ensures r.Pass? ==> id in pages
      ensures id !in pages ==> r == Fail(NotFound)
    {
      if id !in pages {
        return Fail(NotFound);
      }
      var up: bool := *;
      r := if up then Pass else Fail(RequestFailed);
    }

    /** blockClient.GetChildren: the listing page at the cursor's position. */
    method GetChildren(id: PageId, cursor: string) returns (r: Result<Response<Block>>)
      requires Valid()
      ensures r.Ok? ==> id in pages && DecodeCursor(cursor).Some?
      ensures r.Ok? ==> DecodeCursor(cursor).value <= |pages[id].children|
      ensures r.Ok? ==> r.value == ListingPage(pages[id].children, DecodeCursor(cursor).value, pageSize)
      ensures id !in pages ==> r == Err(NotFound)
    {
      if id !in pages {
        return Err(NotFound);
      }
      var children := pages[id].children;
      var offset := DecodeCursor(cursor);
      if offset.None? || offset.value > |children| {
        return Err(InvalidCursor);
      }
      var up: bool := *;
      if !up {
        return Err(RequestFailed);
      }
      r := Ok(ListingPage(children, offset.value, pageSize));
    }

    /** pageClient.Create: a new page in `database` with its properties and
        initial children. */
    method Create(database: string, title: string, bookName: string, created: Instant, children: seq<Block>)
      returns (r: Result<PageId>)
      requires Valid()
      modifies this
      ensures Valid() && nextId >= old(nextId)
      ensures r.Ok? ==> r.value == old(nextId) && r.value !in old(pages) && nextId > old(nextId)
      ensures r.Ok? ==> pages == old(pages)[r.value := PageData(database, title, bookName, created, children)]
      ensures r.Err? ==> pages == old(pages) && nextId == old(nextId)
    {
      var up: bool := *;
      if !up {
        return Err(RequestFailed);
      }
      var id := nextId;
      pages := pages[id := PageData(database, title, bookName, created, children)];
      nextId := nextId + 1;
      r := Ok(id);
    }

    /** blockClient.AppendChildren: the blocks go after the page's existing
        children, in order. */
    method AppendChildren(id: PageId, children: seq<Block>) returns (r: Outcome)
      requires Valid()
      modifies this
      ensures Valid() && nextId == old(nextId)
      ensures r.Pass? ==> id in old(pages) && pages == WithAppended(old(pages), id, children)
      ensures r.Fail? ==> pages == old(pages)
    {
      if id !in pages {
        return Fail(NotFound);
      }
      var up: bool := *;
      if !up {
        return Fail(RequestFailed);
      }
      pages := pages[id := pages[id].(children := pages[id].children + children)];
      r := Pass;
    }
  }
}
