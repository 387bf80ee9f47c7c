/** The bookmark record read from the Kobo reader's database. */
module Kobo {

  /** One highlight or note. `color` is the key into the label palette that
      the block renderer reads; the record as declared in kobo/kobo.go has no
      such field (see README). */
  datatype Bookmark = Bookmark(
    bookmarkId: string,
    volumeId: string,
    text: string,
    annotation: string,
    kind: string,
    dateCreated: string,
    color: string)
}
