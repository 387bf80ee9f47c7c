/** String and collection helpers of the sync engine: the book title of a
    volume path, the filter of already-known bookmarks, date normalisation,
    text chunking and substring tests. Strings are sequences of code points. */
module Utils {
  import opened Wrappers
  import opened Kobo
  import opened NotionTypes

  // ---------------------------------------------------------------------
  // Go's strings package, on code-point sequences
  // ---------------------------------------------------------------------

  /** strings.TrimPrefix */
  function TrimPrefix(s: string, prefix: string): (r: string)
    ensures prefix <= s ==> prefix + r == s
    ensures !(prefix <= s) ==> r == s
  {
    if prefix <= s then s[|prefix|..] else s
  }

  predicate HasSuffix(s: string, suffix: string)
  {
    |suffix| <= |s| && s[|s| - |suffix|..] == suffix
  }

  /** strings.TrimSuffix */
  function TrimSuffix(s: string, suffix: string): (r: string)
    ensures HasSuffix(s, suffix) ==> r + suffix == s
    ensures !HasSuffix(s, suffix) ==> r == s
  {
    if HasSuffix(s, suffix) then s[..|s| - |suffix|] else s
  }

  /** strings.Contains(s, substr): substr occurs somewhere in s. */
  predicate Contains(s: string, substr: string)
  {
    exists k :: 0 <= k <= |s| && substr <= s[k..]
  }

  lemma ContainsEmpty(s: string)
    ensures Contains(s, "")
  {
    assert "" <= s[0..];
  }

  lemma ContainsSuffix(a: string, b: string)
    ensures Contains(a + b, b)
  {
    assert b <= (a + b)[|a|..];
  }

  // ---------------------------------------------------------------------
  // Go's path/filepath (Unix separator '/')
  // ---------------------------------------------------------------------

  /** The path with every trailing '/' removed. */
  function StripTrailingSlashes(path: string): string
  {
    if path != [] && path[|path| - 1] == '/' then StripTrailingSlashes(path[..|path| - 1]) else path
  }

  /** The part of the path after its last '/' (the whole path if it has none). */
  function LastElement(path: string): string
  {
    if path == [] then []
    else if path[|path| - 1] == '/' then []
    else LastElement(path[..|path| - 1]) + [path[|path| - 1]]
  }

  /** filepath.Base: "." for the empty path, "/" for a path of slashes only,
      otherwise the last element once trailing slashes are dropped. */
  function Base(path: string): string
  {
    if path == [] then "."
    else
      var stripped := StripTrailingSlashes(path);
      if stripped == [] then "/" else LastElement(stripped)
  }

  /** filepath.Ext: the suffix starting at the final '.' of the last
      element, or "" when that element has no '.'. */
  function Ext(path: string): string
  {
    if path == [] then []
    else
      var c := path[|path| - 1];
      if c == '/' then []
      else if c == '.' then ['.']
      else
        var e := Ext(path[..|path| - 1]);
        if e == [] then [] else e + [c]
  }

  /** The book title of a Kobo volume id (utils/utils.go GetBookNameFromVolumeID). */
  function GetBookNameFromVolumeID(volumeId: string): string
  {
    var path := TrimPrefix(volumeId, "file://");
    var filenameWithExt := Base(path);
    TrimSuffix(filenameWithExt, Ext(filenameWithExt))
  }

  /** Stripping leaves a prefix that does not end in '/', and only '/' was cut. */
  lemma {:induction false} StripTrailingSlashesSpec(path: string)
    ensures var r := StripTrailingSlashes(path);
      r <= path && (r == [] || r[|r| - 1] != '/')
      && forall i :: |r| <= i < |path| ==> path[i] == '/'
    decreases |path|
  {
    if path != [] && path[|path| - 1] == '/' {
      StripTrailingSlashesSpec(path[..|path| - 1]);
    }
  }

  /** The last element has no '/', ends the path, and starts it or follows a '/'. */
  lemma {:induction false} LastElementSpec(path: string)
    ensures var r := LastElement(path);
      '/' !in r && |r| <= |path| && r == path[|path| - |r|..]
      && (|r| == |path| || path[|path| - |r| - 1] == '/')
    decreases |path|
  {
    if path != [] && path[|path| - 1] != '/' {
      var init := path[..|path| - 1];
      LastElementSpec(init);
      var r0 := LastElement(init);
      assert path[|path| - |r0| - 1..] == r0 + [path[|path| - 1]];
    }
  }

  /** Base is never empty, and it is ".", "/" or free of '/'. */
  lemma BaseSpec(path: string)
    ensures Base(path) != []
    ensures Base(path) == "." || Base(path) == "/" || '/' !in Base(path)
  {
    if path != [] {
      StripTrailingSlashesSpec(path);
      var stripped := StripTrailingSlashes(path);
      if stripped != [] {
        LastElementSpec(stripped);
        assert stripped[|stripped| - 1] in LastElement(stripped);
      }
    }
  }

  /** Ext is a suffix of the path without '/', and it is empty or one '.'
      followed by no other '.'. */
  lemma {:induction false} ExtSpec(path: string)
    ensures var r := Ext(path);
      HasSuffix(path, r) && (r == [] || (r[0] == '.' && '.' !in r[1..])) && '/' !in r
    decreases |path|
  {
    if path != [] && path[|path| - 1] != '/' && path[|path| - 1] != '.' {
      var init := path[..|path| - 1];
      ExtSpec(init);
      var e := Ext(init);
      if e != [] {
        assert path[|path| - |e| - 1..] == e + [path[|path| - 1]];
        assert (e + [path[|path| - 1]])[1..] == e[1..] + [path[|path| - 1]];
      }
    }
  }

  /** A book title is "/" (a volume of slashes only) or has no '/'. */
  lemma BookNameHasNoSlash(volumeId: string)
    ensures var r := GetBookNameFromVolumeID(volumeId); r == "/" || '/' !in r
  {
    var path := TrimPrefix(volumeId, "file://");
    var file := Base(path);
    BaseSpec(path);
    ExtSpec(file);
    var r := TrimSuffix(file, Ext(file));
    assert r <= file;
  }

  lemma {:induction false} LastElementAfterSlash(dir: string, name: string)
    requires '/' !in name
    ensures LastElement(dir + "/" + name) == name
    decreases |name|
  {
    var p := dir + "/" + name;
    if name == [] {
      assert p[|p| - 1] == '/';
    } else {
      var n := |name| - 1;
      assert p[..|p| - 1] == dir + "/" + name[..n];
      assert p[|p| - 1] == name[n];
      LastElementAfterSlash(dir, name[..n]);
      assert name[..n] + [name[n]] == name;
    }
  }

  lemma {:induction false} ExtOfDotted(stem: string, ext: string)
    requires '/' !in ext && '.' !in ext
    ensures Ext(stem + "." + ext) == "." + ext
    decreases |ext|
  {
    var p := stem + "." + ext;
    if ext == [] {
      assert p[|p| - 1] == '.';
    } else {
      var n := |ext| - 1;
      assert p[..|p| - 1] == stem + "." + ext[..n];
      assert p[|p| - 1] == ext[n];
      ExtOfDotted(stem, ext[..n]);
      assert "." + ext[..n] + [ext[n]] == "." + ext;
    }
  }

  lemma {:induction false} ExtOfUndotted(name: string)
    requires '/' !in name && '.' !in name
    ensures Ext(name) == []
    decreases |name|
  {
    if name != [] {
      var n := |name| - 1;
      assert name[n] in name;
      assert forall c :: c in name[..n] ==> c in name;
      ExtOfUndotted(name[..n]);
    }
  }

  /** Base of a path that does not end in '/' is the part after its last '/'. */
  lemma BaseOfFile(dir: string, file: string)
    requires file != [] && '/' !in file
    ensures Base(dir + "/" + file) == file
  {
    var path := dir + "/" + file;
    assert path[|path| - 1] == file[|file| - 1];
    assert file[|file| - 1] in file;
    assert StripTrailingSlashes(path) == path;
    LastElementAfterSlash(dir, file);
  }

  /** Dropping the "file://" marker leaves the path whose base names the book. */
  lemma BookNameOfFileUrl(volumeId: string, path: string)
    requires volumeId == "file://" + path
    ensures GetBookNameFromVolumeID(volumeId) == TrimSuffix(Base(path), Ext(Base(path)))
  {
    assert volumeId[..7] == "file://";
    assert volumeId[7..] == path;
  }

  lemma {:induction false} TitleOfDottedFile(dir: string, name: string, ext: string)
    requires '/' !in name && '/' !in ext && '.' !in ext
    ensures var path := dir + "/" + (name + "." + ext);
      TrimSuffix(Base(path), Ext(Base(path))) == name
  {
    var file := name + "." + ext;
    assert '/' !in file by {
      assert '/' !in name + ".";
    }
    BaseOfFile(dir, file);
    ExtOfDotted(name, ext);
    assert HasSuffix(file, "." + ext);
    assert file[..|file| - |"." + ext|] == name;
  }

  lemma {:induction false} TitleOfUndottedFile(dir: string, name: string)
    requires name != [] && '/' !in name && '.' !in name
    ensures var path := dir + "/" + name;
      TrimSuffix(Base(path), Ext(Base(path))) == name
  {
    BaseOfFile(dir, name);
    ExtOfUndotted(name);
    assert TrimSuffix(name, []) == name;
  }

  /** A volume "file://<dir>/<name>.<ext>" whose extension has no '.' names
      the book "<name>", even when <name> itself contains dots. */
  lemma BookNameOfFileWithExtension(dir: string, name: string, ext: string)
    requires '/' !in name && '/' !in ext && '.' !in ext
    ensures GetBookNameFromVolumeID("file://" + dir + "/" + name + "." + ext) == name
  {
    assert "file://" + dir + "/" + name + "." + ext == "file://" + (dir + "/" + (name + "." + ext));
    BookNameOfFileUrl("file://" + dir + "/" + name + "." + ext, dir + "/" + (name + "." + ext));
    TitleOfDottedFile(dir, name, ext);
  }

  /** A volume "file://<dir>/<name>" whose last element has no '.' names the
      book "<name>". */
  lemma BookNameOfFileWithoutExtension(dir: string, name: string)
    requires name != [] && '/' !in name && '.' !in name
    ensures GetBookNameFromVolumeID("file://" + dir + "/" + name) == name
  {
    assert "file://" + dir + "/" + name == "file://" + (dir + "/" + name);
    BookNameOfFileUrl("file://" + dir + "/" + name, dir + "/" + name);
    TitleOfUndottedFile(dir, name);
  }

  // The four cases of utils/utils_test.go.

  lemma BookNameExampleEpub(volumeId: string, dir: string, name: string, ext: string)
    requires volumeId == "file:///mnt/onboard/MyBook.epub"
    requires dir == "/mnt/onboard" && name == "MyBook" && ext == "epub"
    ensures GetBookNameFromVolumeID(volumeId) == "MyBook"
  {
    assert volumeId == "file://" + dir + "/" + name + "." + ext;
    BookNameOfFileWithExtension(dir, name, ext);
  }

  lemma BookNameExampleWithSpace(volumeId: string, dir: string, name: string, ext: string)
    requires volumeId == "file:///mnt/onboard/My Book.epub"
    requires dir == "/mnt/onboard" && name == "My Book" && ext == "epub"
    ensures GetBookNameFromVolumeID(volumeId) == "My Book"
  {
    assert volumeId == "file://" + dir + "/" + name + "." + ext;
    BookNameOfFileWithExtension(dir, name, ext);
  }

  lemma BookNameExampleInFolder(volumeId: string, dir: string, name: string, ext: string)
    requires volumeId == "file:///mnt/onboard/Folder/MyBook.pdf"
    requires dir == "/mnt/onboard/Folder" && name == "MyBook" && ext == "pdf"
    ensures GetBookNameFromVolumeID(volumeId) == "MyBook"
  {
    assert volumeId == "file://" + dir + "/" + name + "." + ext;
    BookNameOfFileWithExtension(dir, name, ext);
  }

  lemma BookNameExampleNoExtension(volumeId: string, dir: string, name: string)
    requires volumeId == "file:///mnt/onboard/Folder/MyBook"
    requires dir == "/mnt/onboard/Folder" && name == "MyBook"
    ensures GetBookNameFromVolumeID(volumeId) == "MyBook"
  {
    assert volumeId == "file://" + dir + "/" + name;
    BookNameOfFileWithoutExtension(dir, name);
  }

  // ---------------------------------------------------------------------
  // FilterNewBookmarks
  // ---------------------------------------------------------------------

  /** The bookmarks whose id is not among the known ones, in input order. The
      Go map[string]bool of known ids is the set of its keys mapped to true. */
  function NewBookmarks(bookmarks: seq<Bookmark>, existing: set<string>): seq<Bookmark>
  {
    if bookmarks == [] then []
    else
      var last := bookmarks[|bookmarks| - 1];
      NewBookmarks(bookmarks[..|bookmarks| - 1], existing)
        + (if last.bookmarkId in existing then [] else [last])
  }

  lemma {:induction false} NewBookmarksMembers(bookmarks: seq<Bookmark>, existing: set<string>)
    ensures forall b :: b in NewBookmarks(bookmarks, existing) <==> b in bookmarks && b.bookmarkId !in existing
    ensures |NewBookmarks(bookmarks, existing)| <= |bookmarks|
    decreases |bookmarks|
  {
    if bookmarks != [] {
      var n := |bookmarks| - 1;
      NewBookmarksMembers(bookmarks[..n], existing);
      assert bookmarks == bookmarks[..n] + [bookmarks[n]];
    }
  }

  /** Filtering distributes over concatenation, so survivors keep their
      relative order. */
  lemma {:induction false} NewBookmarksAppend(a: seq<Bookmark>, b: seq<Bookmark>, existing: set<string>)
    ensures NewBookmarks(a + b, existing) == NewBookmarks(a, existing) + NewBookmarks(b, existing)
    decreases |b|
  {
    if b == [] {
      assert a + b == a;
    } else {
      var n := |b| - 1;
      assert (a + b)[..|a + b| - 1] == a + b[..n];
      assert (a + b)[|a + b| - 1] == b[n];
      NewBookmarksAppend(a, b[..n], existing);
    }
  }

  /** utils/utils.go FilterNewBookmarks. */
  method FilterNewBookmarks(bookmarks: seq<Bookmark>, existing: set<string>) returns (newBookmarks: seq<Bookmark>)
    ensures newBookmarks == NewBookmarks(bookmarks, existing)
  {
    newBookmarks := [];
    for i := 0 to |bookmarks|
      invariant newBookmarks == NewBookmarks(bookmarks[..i], existing)
    {
      assert bookmarks[..i + 1][..i] == bookmarks[..i];
      if bookmarks[i].bookmarkId !in existing {
        newBookmarks := newBookmarks + [bookmarks[i]];
      }
    }
    assert bookmarks[..|bookmarks|] == bookmarks;
  }

  /** The case of utils/utils_test.go: ids 1, 2, 3 against the known id 2. */
  lemma FilterExample(b1: Bookmark, b2: Bookmark, b3: Bookmark)
    requires b1.bookmarkId == "1" && b2.bookmarkId == "2" && b3.bookmarkId == "3"
    ensures NewBookmarks([b1, b2, b3], {"2"}) == [b1, b3]
  {
    var s1, s2, s3 := [b1], [b1, b2], [b1, b2, b3];
    assert "1" != "2" && "3" != "2" by {
      assert "1"[0] != "2"[0] && "3"[0] != "2"[0];
    }
    assert s1[..0] == [] && s1[0] == b1;
    assert NewBookmarks(s1, {"2"}) == [b1];
    assert s2[..1] == s1 && s2[1] == b2;
    assert NewBookmarks(s2, {"2"}) == [b1];
    assert s3[..2] == s2 && s3[2] == b3;
  }

  // ---------------------------------------------------------------------
  // ParseKoboBookmarkDate
  // ---------------------------------------------------------------------

  /** The date string handed to the RFC 3339 parser: "Z" appended unless the
      string already ends in 'Z'. */
  function NormalizeDate(dateStr: string): (r: string)
    ensures HasSuffix(r, "Z")
    ensures HasSuffix(dateStr, "Z") ==> r == dateStr
    ensures !HasSuffix(dateStr, "Z") ==> r == dateStr + "Z"
  {
    if HasSuffix(dateStr, "Z") then dateStr else dateStr + "Z"
  }

  lemma NormalizeDateIdempotent(dateStr: string)
    ensures NormalizeDate(NormalizeDate(dateStr)) == NormalizeDate(dateStr)
  {
  }

  /** utils/utils.go ParseKoboBookmarkDate; `rfc3339` is time.Parse with the
      RFC 3339 layout, a partial function. */
  function ParseKoboBookmarkDate(dateStr: string, rfc3339: string -> Option<Instant>): (r: Result<Instant>)
    ensures r == Err(EmptyDate) <==> dateStr == ""
    ensures r.Err? ==> r == Err(EmptyDate) || r == Err(InvalidDate)
    ensures r.Ok? <==> dateStr != "" && rfc3339(NormalizeDate(dateStr)).Some?
    ensures r.Ok? ==> rfc3339(NormalizeDate(dateStr)) == Some(r.value)
  {
    if dateStr == "" then Err(EmptyDate)
    else
      match rfc3339(NormalizeDate(dateStr))
      case None => Err(InvalidDate)
      case Some(t) => Ok(t)
  }

  /** A date without zone suffix parses exactly as the same date with "Z":
      "2024-03-10T12:34:56" and "2024-03-10T12:34:56Z" give the same result. */
  lemma DateWithoutZoneIsUtc(dateStr: string, rfc3339: string -> Option<Instant>)
    requires dateStr != "" && !HasSuffix(dateStr, "Z")
    ensures ParseKoboBookmarkDate(dateStr, rfc3339) == ParseKoboBookmarkDate(dateStr + "Z", rfc3339)
  {
    var z := dateStr + "Z";
    assert z[|z| - 1..] == "Z";
    assert NormalizeDate(z) == z;
  }

  // ---------------------------------------------------------------------
  // SplitText
  // ---------------------------------------------------------------------

  /** The text cut into consecutive pieces of `n` code points, the last one
      possibly shorter. */
  function Chunks(text: string, n: nat): seq<string>
    requires n > 0
    decreases |text|
  {
    if |text| == 0 then []
    else if |text| <= n then [text]
    else [text[..n]] + Chunks(text[n..], n)
  }

  /** The result of SplitText: no chunks at all for a non-positive size. */
  function SplitChunks(text: string, chunkSize: int): seq<string>
  {
    if chunkSize <= 0 then [] else Chunks(text, chunkSize)
  }

  /** The concatenation of a sequence of strings. */
  function Flatten(ss: seq<string>): string
  {
    if ss == [] then [] else ss[0] + Flatten(ss[1..])
  }

  lemma {:induction false} ChunksFlatten(text: string, n: nat)
    requires n > 0
    ensures Flatten(Chunks(text, n)) == text
    decreases |text|
  {
    if |text| == 0 {
    } else if |text| <= n {
      assert Chunks(text, n)[1..] == [];
    } else {
      ChunksFlatten(text[n..], n);
      assert ([text[..n]] + Chunks(text[n..], n))[1..] == Chunks(text[n..], n);
      assert text[..n] + text[n..] == text;
    }
  }

  lemma {:induction false} ChunksSizes(text: string, n: nat)
    requires n > 0
    ensures var cs := Chunks(text, n);
      forall k :: 0 <= k < |cs| ==> 0 < |cs[k]| <= n && (k < |cs| - 1 ==> |cs[k]| == n)
    decreases |text|
  {
    if |text| > n {
      ChunksSizes(text[n..], n);
      var cs := Chunks(text, n);
      assert forall k :: 1 <= k < |cs| ==> cs[k] == Chunks(text[n..], n)[k - 1];
    }
  }

  lemma ChunksEmpty(text: string, n: nat)
    requires n > 0
    ensures Chunks(text, n) == [] <==> text == []
  {
  }

  /** 4500 code points at size 2000 give chunks of 2000, 2000 and 500, in order. */
  lemma ChunksExample(text: string)
    requires |text| == 4500
    ensures var cs := SplitChunks(text, 2000);
      |cs| == 3 && cs[0] == text[..2000] && cs[1] == text[2000..4000] && cs[2] == text[4000..]
      && |cs[0]| == 2000 && |cs[1]| == 2000 && |cs[2]| == 500
  {
    var t1 := text[2000..];
    var t2 := t1[2000..];
    assert Chunks(t2, 2000) == [t2];
    assert Chunks(t1, 2000) == [t1[..2000]] + [t2];
    assert t1[..2000] == text[2000..4000];
    assert t2 == text[4000..];
  }

  /** utils/utils.go SplitText. */
  method SplitText(text: string, chunkSize: int) returns (chunks: seq<string>)
    ensures chunks == SplitChunks(text, chunkSize)
  {
    if chunkSize <= 0 {
      return [];
    }
    chunks := [];
    var i := 0;
    while i < |text|
      invariant 0 <= i
      invariant chunks + Chunks(if i <= |text| then text[i..] else [], chunkSize) == Chunks(text, chunkSize)
      decreases |text| - i
    {
      var end := i + chunkSize;
      if end > |text| {
        end := |text|;
      }
      ghost var rest := text[i..];
      ghost var next := if i + chunkSize <= |text| then text[i + chunkSize..] else [];
      if |rest| <= chunkSize {
        assert text[i..end] == rest;
        assert next == [];
        assert Chunks(rest, chunkSize) == [text[i..end]] + Chunks(next, chunkSize);
      } else {
        assert rest[..chunkSize] == text[i..end];
        assert rest[chunkSize..] == next;
        assert Chunks(rest, chunkSize) == [text[i..end]] + Chunks(next, chunkSize);
      }
      chunks := chunks + [text[i..end]];
      i := i + chunkSize;
    }
  }

  // ---------------------------------------------------------------------
  // ContainsBlockRichText, ContainsBookmark
  // ---------------------------------------------------------------------

  /** utils/utils.go ContainsBlockRichText: `text` occurs in the text of some block. */
  function ContainsBlockRichText(text: string, blocks: seq<Block>): (r: bool)
    ensures r <==> exists i :: 0 <= i < |blocks| && Contains(BlockText(blocks[i]), text)
  {
    if blocks == [] then false
    else if Contains(BlockText(blocks[0]), text) then true
    else
      var rest := ContainsBlockRichText(text, blocks[1..]);
      assert forall i :: 1 <= i < |blocks| ==> blocks[i] == blocks[1..][i - 1];
      rest
  }

  /** The empty text is found exactly when there is at least one block. */
  lemma ContainsBlockRichTextEmpty(blocks: seq<Block>)
    ensures ContainsBlockRichText("", blocks) <==> blocks != []
  {
    if blocks != [] {
      ContainsEmpty(BlockText(blocks[0]));
    }
  }

  /** The non-empty text or annotation of a bookmark occurs in `text`. */
  predicate FieldOccursIn(text: string, b: Bookmark)
  {
    (b.text != "" && Contains(text, b.text)) || (b.annotation != "" && Contains(text, b.annotation))
  }

  /** utils/utils.go ContainsBookmark: some bookmark has a non-empty text or
      annotation occurring in `text`; empty fields never match. */
  function ContainsBookmark(text: string, bookmarks: seq<Bookmark>): (r: bool)
    ensures r <==> exists i :: 0 <= i < |bookmarks| && FieldOccursIn(text, bookmarks[i])
  {
    if bookmarks == [] then false
    else if bookmarks[0].text != "" && Contains(text, bookmarks[0].text) then true
    else if bookmarks[0].annotation != "" && Contains(text, bookmarks[0].annotation) then true
    else
      var rest := ContainsBookmark(text, bookmarks[1..]);
      assert forall i :: 1 <= i < |bookmarks| ==> bookmarks[i] == bookmarks[1..][i - 1];
      rest
  }

  /** A bookmark with both fields empty is never found. */
  lemma ContainsBookmarkIgnoresEmpty(text: string, b: Bookmark)
    requires b.text == "" && b.annotation == ""
    ensures !ContainsBookmark(text, [b])
  {
  }
}
