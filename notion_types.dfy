/** The parts of the Notion data model the sync engine touches: styled text
    runs, quote blocks, database rows with their properties, and paginated
    responses. The property names are the constants of notion/core.go. */
module NotionTypes {
  import opened Wrappers

  const PropBookTitle := "Book Title"
  const PropHighlightedText := "Highlighted Text"
  const PropAnnotation := "Annotation"
  const PropDateCreated := "Date Created"
  const PropBookmarkID := "Bookmark ID"
  const PropBookName := "Book Name"

  /** Identifier of a page in the remote store. */
  type PageId = nat

  /** An instant as the RFC 3339 parser represents it (the parser itself is
      an injected function). */
  type Instant = int

  /** Notion text colours; `DefaultColor` is Go's zero value of the colour type. */
  datatype Color = DefaultColor | Red | Orange | Yellow | Green | Blue | Purple | Pink | Brown

  /** Bold and colour of a run. */
  datatype Style = Style(bold: bool, color: Color)

  /** One rich-text run: its content (equal to its plain text) and its
      style, `None` when the run carries no annotations. */
  datatype RichText = RichText(content: string, style: Option<Style>)

  /** A child block of a page: a quote holding a sequence of runs. */
  datatype Block = QuoteBlock(richText: seq<RichText>)

  /** Concatenated contents of a sequence of runs. */
  function RunsText(runs: seq<RichText>): string
  {
    if runs == [] then [] else RunsText(runs[..|runs| - 1]) + runs[|runs| - 1].content
  }

  /** The text of a block, taken as the concatenation of its runs (the
      stand-in for notionapi's GetRichTextString). */
  function BlockText(b: Block): string
  {
    RunsText(b.richText)
  }

  lemma {:induction false} RunsTextAppend(a: seq<RichText>, b: seq<RichText>)
    ensures RunsText(a + b) == RunsText(a) + RunsText(b)
    decreases |b|
  {
    if b == [] {
      assert a + b == a;
    } else {
      var n := |b| - 1;
      assert (a + b)[..|a + b| - 1] == a + b[..n];
      assert (a + b)[|a + b| - 1] == b[n];
      RunsTextAppend(a, b[..n]);
    }
  }

  /** A property value of a database row. */
  datatype Property =
    | RichTextProperty(richText: seq<RichText>)
    | TitleProperty(title: seq<RichText>)
    | OtherProperty

  /** A database row (a page) as a query returns it. */
  datatype Row = Row(id: PageId, properties: map<string, Property>)

  /** One page of a paginated listing. */
  datatype Response<T> = Response(results: seq<T>, hasMore: bool, nextCursor: string)
}
