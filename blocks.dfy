/** notion/blocks.go: the quote blocks a bookmark is rendered to, and the
    paginated listing of a page's children. */
module Blocks {
  import opened Wrappers
  import opened Kobo
  import opened NotionTypes
  import opened Utils
  import opened Store

  /** Longest content of a single run (bookMarkTextSplit). */
  const BookmarkTextSplit: nat := 2000

  /** Kobo highlight colour keys and the Notion colours they map to. */
  const Palette: map<string, Color> := map[
    "0" := Red, "1" := Orange, "2" := Yellow, "3" := Green,
    "4" := Blue, "5" := Purple, "6" := Pink, "7" := Brown]

  /** The palette's keys are exactly the one-digit strings "0" to "7". */
  lemma PaletteKeys(key: string)
    ensures key in Palette <==> |key| == 1 && '0' <= key[0] <= '7'
  {
    if |key| == 1 && '0' <= key[0] <= '7' {
      assert key == [key[0]];
    }
  }

  /** The colour of a Kobo colour key: one of the eight palette colours for
      the keys "0" to "7", Go's zero colour for every other key. */
  function LabelColor(key: string): (c: Color)
    ensures key in Palette ==> c == Palette[key]
    ensures key !in Palette ==> c == DefaultColor
    ensures c != DefaultColor <==> |key| == 1 && '0' <= key[0] <= '7'
  {
    PaletteKeys(key);
    if key in Palette then
      Palette[key]
    else
      DefaultColor
  }

  /** The bold, coloured heading that opens a block. */
  function LabelRun(heading: string, color: Color): RichText
  {
    RichText(heading, Some(Style(true, color)))
  }

  /** The unstyled line break after the heading. */
  const NewlineRun: RichText := RichText("\n", None)

  /** One unstyled run per chunk, in order. */
  function PlainRuns(chunks: seq<string>): seq<RichText>
  {
    seq(|chunks|, i requires 0 <= i < |chunks| => RichText(chunks[i], None))
  }

  /** A quote block for one bookmark field: its heading, a line break, then the
      field cut into runs of at most BookmarkTextSplit code points. */
  function FieldBlock(heading: string, field: string, color: Color): Block
  {
    QuoteBlock([LabelRun(heading, color), NewlineRun] + PlainRuns(SplitChunks(field, BookmarkTextSplit)))
  }

  /** createBookmarkBlocks as a value: a "Highlighted Text" block for a
      non-empty text, then an "Annotation" block for a non-empty annotation,
      both labelled in the bookmark's colour. */
  function BookmarkBlocks(b: Bookmark): seq<Block>
  {
    var color := LabelColor(b.color);
    (if b.text != "" then [FieldBlock(PropHighlightedText, b.text, color)] else [])
      + (if b.annotation != "" then [FieldBlock(PropAnnotation, b.annotation, color)] else [])
  }

  lemma {:induction false} PlainRunsText(chunks: seq<string>)
    ensures RunsText(PlainRuns(chunks)) == Flatten(chunks)
    decreases |chunks|
  {
    if chunks != [] {
      PlainRunsText(chunks[1..]);
      assert PlainRuns(chunks) == [RichText(chunks[0], None)] + PlainRuns(chunks[1..]);
      RunsTextAppend([RichText(chunks[0], None)], PlainRuns(chunks[1..]));
      assert RunsText([RichText(chunks[0], None)]) == chunks[0] by {
        assert [RichText(chunks[0], None)][..0] == [];
      }
    }
  }

  /** The text of a field block is its heading, a line break and the whole
      field: cutting into runs loses and reorders nothing. */
  lemma FieldBlockText(heading: string, field: string, color: Color)
    ensures BlockText(FieldBlock(heading, field, color)) == heading + "\n" + field
  {
    var head := [LabelRun(heading, color), NewlineRun];
    var chunks := SplitChunks(field, BookmarkTextSplit);
    RunsTextAppend(head, PlainRuns(chunks));
    assert RunsText(head) == heading + "\n" by {
      var first := head[..1];
      assert first[..0] == [];
      assert RunsText(first) == heading;
      assert head[..|head| - 1] == first;
      assert head[|head| - 1].content == "\n";
    }
    PlainRunsText(chunks);
    ChunksFlatten(field, BookmarkTextSplit);
  }

  /** A field block is a bold heading in the given colour, an unstyled line
      break, and one unstyled run per chunk, each chunk of 1 to
      BookmarkTextSplit code points; there are chunk runs exactly when the
      field is non-empty. */
  lemma FieldBlockRuns(heading: string, field: string, color: Color)
    ensures var runs := FieldBlock(heading, field, color).richText;
      |runs| >= 2
      && runs[0] == RichText(heading, Some(Style(true, color)))
      && runs[1] == RichText("\n", None)
      && (|runs| == 2 <==> field == "")
      && forall i :: 2 <= i < |runs| ==> runs[i].style == None && 0 < |runs[i].content| <= BookmarkTextSplit
  {
    ChunksSizes(field, BookmarkTextSplit);
    ChunksEmpty(field, BookmarkTextSplit);
    var runs := FieldBlock(heading, field, color).richText;
    var chunks := SplitChunks(field, BookmarkTextSplit);
    assert forall i :: 2 <= i < |runs| ==> runs[i] == RichText(chunks[i - 2], None);
  }

  /** One block per non-empty field, the highlight first, and each block's
      text is its heading, a line break and the field. */
  lemma BookmarkBlocksShape(b: Bookmark)
    ensures var blocks := BookmarkBlocks(b);
      |blocks| == (if b.text != "" then 1 else 0) + (if b.annotation != "" then 1 else 0)
      && (b.text != "" ==> BlockText(blocks[0]) == PropHighlightedText + "\n" + b.text)
      && (b.annotation != "" ==> BlockText(blocks[|blocks| - 1]) == PropAnnotation + "\n" + b.annotation)
  {
    FieldBlockText(PropHighlightedText, b.text, LabelColor(b.color));
    FieldBlockText(PropAnnotation, b.annotation, LabelColor(b.color));
  }

  /** Each non-empty field of a bookmark is found in the blocks it is
      rendered to, which is what the skip test of an update relies on. */
  lemma BookmarkFieldsFound(b: Bookmark)
    ensures b.text != "" ==> ContainsBlockRichText(b.text, BookmarkBlocks(b))
    ensures b.annotation != "" ==> ContainsBlockRichText(b.annotation, BookmarkBlocks(b))
  {
    var blocks := BookmarkBlocks(b);
    BookmarkBlocksShape(b);
    if b.text != "" {
      ContainsSuffix(PropHighlightedText + "\n", b.text);
      assert Contains(BlockText(blocks[0]), b.text);
    }
    if b.annotation != "" {
      ContainsSuffix(PropAnnotation + "\n", b.annotation);
      assert Contains(BlockText(blocks[|blocks| - 1]), b.annotation);
    }
  }

  /** notion/blocks.go createBookmarkBlocks. */
  method CreateBookmarkBlocks(b: Bookmark) returns (blocks: seq<Block>)
    ensures blocks == BookmarkBlocks(b)
  {
    if b.text == "" && b.annotation == "" {
      return [];
    }
    var color := LabelColor(b.color);
    var textChunks := SplitText(b.text, BookmarkTextSplit);
    var annotationChunks := SplitText(b.annotation, BookmarkTextSplit);
    ChunksEmpty(b.text, BookmarkTextSplit);
    ChunksEmpty(b.annotation, BookmarkTextSplit);

    var paragraphRuns: seq<RichText> := [];
    if |textChunks| > 0 {
      paragraphRuns := [LabelRun(PropHighlightedText, color), NewlineRun];
      for i := 0 to |textChunks|
        invariant paragraphRuns == [LabelRun(PropHighlightedText, color), NewlineRun] + PlainRuns(textChunks[..i])
      {
        assert PlainRuns(textChunks[..i + 1]) == PlainRuns(textChunks[..i]) + [RichText(textChunks[i], None)];
        paragraphRuns := paragraphRuns + [RichText(textChunks[i], None)];
      }
      assert textChunks[..|textChunks|] == textChunks;
    }

    var annotationRuns: seq<RichText> := [];
    if |annotationChunks| > 0 {
      annotationRuns := [LabelRun(PropAnnotation, color), NewlineRun];
      for i := 0 to |annotationChunks|
        invariant annotationRuns == [LabelRun(PropAnnotation, color), NewlineRun] + PlainRuns(annotationChunks[..i])
      {
        assert PlainRuns(annotationChunks[..i + 1]) == PlainRuns(annotationChunks[..i]) + [RichText(annotationChunks[i], None)];
        annotationRuns := annotationRuns + [RichText(annotationChunks[i], None)];
      }
      assert annotationChunks[..|annotationChunks|] == annotationChunks;
    }

    blocks := [];
    if |paragraphRuns| > 0 {
      blocks := blocks + [QuoteBlock(paragraphRuns)];
    }
    if |annotationRuns| > 0 {
      blocks := blocks + [QuoteBlock(annotationRuns)];
    }
  }

  /** notion/blocks.go getAllBlocksFromPage: requests listing pages, each
      from the cursor the previous one returned, until one reports that
      nothing is left. The blocks come back complete and in order; any
      failed request fails the whole listing. */
  method GetAllBlocksFromPage(store: NotionStore, pageId: PageId) returns (r: Result<seq<Block>>)
    requires store.Valid()
    ensures r.Ok? ==> pageId in store.pages && r.value == store.pages[pageId].children
    ensures pageId !in store.pages ==> r.Err?
  {
    var blocks: seq<Block> := [];
    var startCursor := "";
    ghost var items := if pageId in store.pages then store.pages[pageId].children else [];
    ghost var offset: nat := 0;
    while true
      invariant offset <= |items|
      invariant startCursor == CursorAt(offset)
      invariant blocks == items[..offset]
      decreases |items| - offset
    {
      CursorRoundTrip(offset);
      var resp := store.GetChildren(pageId, startCursor);
      if resp.Err? {
        return Err(resp.error);
      }
      var page := resp.value;
      assert items[..offset] + page.results == items[..offset + |page.results|];
      blocks := blocks + page.results;
      if !page.hasMore {
        assert items[..|items|] == items;
        break;
      }
      startCursor := page.nextCursor;
      offset := offset + store.pageSize;
    }
    return Ok(blocks);
  }
}
