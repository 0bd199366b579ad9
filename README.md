# Manga library metadata engine — a Dafny model

This project models the metadata engine of a manga reading server. The server
serves a library laid out as a directory tree: a root directory holds one
directory per series, and each series directory holds one directory per
chapter. A chapter directory holds the page images. Any series or chapter
directory may carry a `metadata.json` sidecar. When the sidecar is present it
is decoded into the record. When it is absent the record is inferred from the
directory: id and title from the directory name, a cover picked among the
files, and a chapter number parsed out of the chapter directory's name.

The model covers:

- the three records (`MangaSeries`, `Chapter`, `Page`) with their validation rules, and the sidecar codec for series and chapters;
- the five typed errors;
- the `MetadataManager`, which scans the root for series and a series directory for chapters, infers missing records and looks a series up by id;
- page listing and lookup for a chapter;
- the pure rules inside the HTTP handlers: case-insensitive matching, slugs, search, chapter lookup, next/previous chapter, and how update requests are merged into stored records.

The filesystem is a snapshot value (`Metadata.FileSystem`) with three parts:

- `dirs` maps a directory path to its entries in `os.ReadDir` order. A path that is not a key cannot be read.
- `series` and `chapters` give, for a sidecar path, the outcome of reading and decoding that file as a series or as a chapter: absent, decodes to a document, unreadable, or malformed.

A write succeeds exactly when the file's directory exists. `time.Now` becomes a parameter `now`.

Modules, one per file:

- `Common` (common.dfy): `Option`, first-match search and filter-map over sequences.
- `Strings` (strings.dfy): the `strings` functions used by the code, on ASCII text.
- `Paths` (paths.dfy): `filepath.Base`, `Ext`, `Dir`, `Join` and `SplitList` on '/'-separated paths.
- `Numbers` (numbers.dfy): the JSON number grammar of section 6 of RFC 8259, with the whitespace of section 2 around it, as `json.Unmarshal` accepts it into a float64; and `strconv.Atoi`.
- `Errors` (errors.dfy): the five error kinds.
- `Disk` (disk.dfy): directory listings and sidecar stores.
- `Pages`, `Chapters`, `Manga` (page.dfy, chapter.dfy, manga.dfy): the records and their methods.
- `Metadata` (metadata.dfy): directory inference, the scans, lookup by id, and the `MetadataManager` class.
- `Routes` (routes.dfy): the handler rules.

The methods of `MetadataManager` and of `Chapters` are loops. Each is proved equal to a specification function, and the properties are proved about that function.

## Model

| member | source | states |
|---|---|---|
| Errors.ErrorString | backend/models/errors.go:12-14 | `Error()` ends with the message, after a non-empty prefix; `ErrorStringInjective` shows that this prefix fixes the kind |
| Errors.ErrorStringInjective | backend/models/errors.go:12-94 | two errors with the same `Error()` text have the same kind and the same message |
| Errors.NewMangaNotFoundError | backend/models/errors.go:17-19 | the result is a MangaNotFound error carrying the message unchanged |
| Errors.NewChapterNotFoundError | backend/models/errors.go:37-39 | the result is a ChapterNotFound error carrying the message unchanged |
| Errors.NewPageNotFoundError | backend/models/errors.go:57-59 | the result is a PageNotFound error carrying the message unchanged |
| Errors.NewMetadataError | backend/models/errors.go:77-79 | the result is a Metadata error carrying the message unchanged |
| Errors.NewValidationError | backend/models/errors.go:97-99 | the result is a Validation error carrying the message unchanged |
| Errors.ExactlyOneKind | backend/models/errors.go:8-105 | exactly one of the five `Is*Error` tests accepts any error: the kinds are exclusive and exhaustive |
| Pages.NextPageNumber | backend/models/page.go:105-108 | the next number is always greater than the page's own; there is no upper bound |
| Pages.PrevPageNumber | backend/models/page.go:110-116 | never negative; 0 (no previous page) exactly when the number is at most 1, otherwise one less |
| Pages.PrevAfterNext | backend/models/page.go:105-116 | from any page numbered 1 or more, stepping forward and then back returns to the same number |
| Pages.NextAfterPrev | backend/models/page.go:105-116 | from any page after the first, stepping back and then forward returns to the same number |
| Pages.Validate | backend/models/page.go:86-97 | no error exactly when the number is positive and the chapter id and image path are non-empty; a Validation error otherwise, with the message of the first failing check in the order number, chapter id, image path |
| Pages.ImageURL | backend/models/page.go:54-83 | with both ids set, the URL is `/manga-images/<manga>/<chapter>/` plus the image's last path element; in every case it ends with that element |
| Pages.ImageURLFallback | backend/models/page.go:56-79 | with neither id set and no ':' in the image path, `SplitList` yields one part, so the manga id is "unknown" and the whole image directory becomes the chapter id |
| Chapters.Validate | backend/models/chapter.go:38-53 | no error exactly when the manga id is non-empty and the number is positive; an empty manga id is reported before a bad number, with the source's messages |
| Chapters.JsonImage | backend/models/chapter.go:25-35 | the JSON form holds every field but `path`; putting `path` back recovers the chapter |
| Chapters.LoadFromJSON | backend/models/chapter.go:56-83 | succeeds exactly when the sidecar decodes; the result holds the document's fields, and `path` is always the sidecar's directory whatever the file says; a Metadata error otherwise |
| Chapters.SaveToJSON | backend/models/chapter.go:86-107 | succeeds exactly when the sidecar's directory exists; it then stores the JSON form at that path and changes no other path; a Metadata error otherwise |
| Chapters.SaveThenLoad | backend/models/chapter.go:56-107 | loading what was saved gives back every field, with `path` set to the sidecar's directory |
| Chapters.IsMetadataFileByExtension | backend/models/chapter.go:204-206 | the `metadata.json` case of `isMetadataFile` is subsumed: a name is metadata exactly when its case-sensitive extension is ".json" |
| Chapters.PageStemEmpty | backend/models/chapter.go:133-140 | the stem `GetPages` hands to `Atoi` is always empty, because the extension of an extension is itself; so `Atoi` always fails |
| Chapters.PageSequenceNumbering | backend/models/chapter.go:127-149 | there is one page per page file, and page k is built from the k-th page file (listing order) with number k+1 and the chapter's ids and path |
| Chapters.InsertByNumber | backend/models/chapter.go:151-153 | inserting into pages sorted by number keeps them sorted and adds exactly that page (multiset) |
| Chapters.SortByNumber | backend/models/chapter.go:151-153 | `sort.Slice` by number returns a sorted permutation of its input |
| Chapters.SortSortedIdentity | backend/models/chapter.go:151-153 | sorting pages already in order leaves the sequence unchanged |
| Chapters.PageSequenceSorted | backend/models/chapter.go:127-153 | the appended pages are already in number order, so the sort changes nothing |
| Chapters.GetPages | backend/models/chapter.go:110-162 | an unreadable directory gives ChapterNotFound and leaves `pageCount` alone; otherwise the pages are numbered 1..n in listing order, and `pageCount` becomes n |
| Chapters.FindPage | backend/models/chapter.go:189-194 | returns the index of the first page with the requested number, or -1 when no page has it |
| Chapters.GetFirstPage | backend/models/chapter.go:165-177 | succeeds exactly when the directory is readable and has a page file; the page is number 1, built from the first page file, and no listed page has a smaller number; otherwise ChapterNotFound, or PageNotFound for an empty chapter |
| Chapters.GetPageByNumber | backend/models/chapter.go:180-201 | page n exists exactly when 1 <= n <= the number of page files, and it is built from the n-th page file; otherwise ChapterNotFound for an unreadable directory, else PageNotFound |
| Chapters.ListedPagesValidate | backend/models/chapter.go:127-149 | every listed page of a chapter with an id and a path passes `Page.Validate` |
| Manga.Validate | backend/models/manga.go:35-49 | no error exactly when id and title are non-empty; the id is reported before the title, with the source's messages |
| Manga.JsonImage | backend/models/manga.go:19-33 | the JSON form holds every field but `path`; putting `path` back recovers the series |
| Manga.LoadFromJSON | backend/models/manga.go:51-81 | succeeds exactly when the sidecar decodes; the result holds the document's fields, and `path` is always the sidecar's directory; a Metadata error otherwise |
| Manga.SaveToJSON | backend/models/manga.go:83-108 | succeeds exactly when the sidecar's directory exists; it then stores the JSON form there and changes no other path; a Metadata error otherwise |
| Manga.SaveThenLoad | backend/models/manga.go:51-108 | loading what was saved gives back every field, with `path` set to the sidecar's directory |
| Manga.SaveThenLoadInPlace | backend/models/manga.go:51-108 | a series saved to the sidecar in its own existing directory loads back unchanged |
| Manga.CoverImageURL | backend/models/manga.go:127-134 | the URL is `/manga-images/<id>/` followed by exactly the cover's last path element |
| Manga.CoverImagePathLastElement | backend/models/manga.go:118-125 | a cover given with any directory in front resolves to the file of that name inside the series directory |
| Manga.NoCover | backend/models/manga.go:118-134 | with no cover, the cover path is the series directory itself and the URL ends in "/." |
| Manga.CoverImageURLLastElement | backend/models/manga.go:127-134 | the URL depends only on the cover's last element |
| Numbers.ParseJsonNumberOfDecimal | backend/models/metadata.go:349-353 | every integer written in decimal is accepted as a JSON number with that value |
| Numbers.ParseJsonNumberLeadingSpace | backend/models/metadata.go:349-353 | JSON whitespace in front of a number does not change the result |
| Numbers.NoDigitNoNumber | backend/models/metadata.go:349-353 | text with no digit is never a number |
| Numbers.ParseJsonNumberOfFraction | backend/models/metadata.go:349-353 | a decimal fraction `n.ds` is accepted as a JSON number worth n + ds/10^len(ds) |
| Numbers.ParseJsonNumberOfNegativeFraction | backend/models/metadata.go:349-353 | `-n.ds` is accepted and is worth the negation of `n.ds` |
| Numbers.LeadingZeroRejected | backend/models/metadata.go:349-353 | a number whose integer part starts with '0' followed by another digit is not JSON |
| Numbers.NegativeLeadingZeroRejected | backend/models/metadata.go:349-353 | the same holds after a leading '-' |
| Numbers.ZeroPaddedRejected | backend/models/metadata.go:349-353 | '0' followed by one or more digits is not a JSON number |
| Metadata.CoverIsFirstCandidate | backend/models/metadata.go:178-209 | when some file's lower-cased name contains "cover" or is a thumbnail name, the first such file is the cover, wherever image files stand |
| Metadata.CoverIsFirstImage | backend/models/metadata.go:178-209 | without such a file, the first entry with an image extension is the cover, even a directory |
| Metadata.NoCoverFound | backend/models/metadata.go:178-209 | with neither, the cover is empty |
| Metadata.ChapterNumberFromName | backend/models/metadata.go:298-313 | the inferred number is never 0, and it is 1 when the processed name is not a JSON number |
| Metadata.ChapterNumberOfDecimal | backend/models/metadata.go:298-313 | "chapter-" followed by a non-zero integer gives that integer; negative ones too ("chapter--2" gives -2) |
| Metadata.ChapterNumberOfFraction | backend/models/metadata.go:298-313 | "chapter-" followed by a non-zero decimal fraction gives that fraction ("chapter-1.5" gives 1.5) |
| Metadata.ZeroPaddedIsChapterOne | backend/models/metadata.go:298-313 | a zero-padded name such as "chapter-007" becomes chapter 1, because JSON rejects the leading zero |
| Metadata.NoDigitIsChapterOne | backend/models/metadata.go:298-313 | a directory name without a digit always becomes chapter 1 |
| Metadata.ImageCountBelowPageFiles | backend/models/metadata.go:315-327 | the inferred page count is never larger than the number of pages `GetPages` later lists for the directory |
| Metadata.InferredChapter | backend/models/metadata.go:290-347 | an inferred chapter has the directory's base name as id, that name with '-' turned into spaces as title, the series id, a non-zero number, and at most as many pages as `GetPages` lists (0 when unreadable); it validates exactly when the series id is set and the number is positive |
| Metadata.InferredSeries | backend/models/metadata.go:164-220 | an inferred series has the base name as id, that name with '-' turned into spaces as title, the fixed description and status, and `lastUpdated` = now; it always validates; the cover is `CoverImageFor` of the listing (the cover rules above); an unreadable directory gives no cover and no chapters; for a readable one the chapter count is the number of chapters the scan finds, never more than the directory's entries |
| Metadata.ScanSeries | backend/models/metadata.go:43-107 | a Metadata error exactly when the root cannot be read |
| Metadata.SeriesEntryDropped | backend/models/metadata.go:60-101 | a root entry contributes nothing exactly when it is a file, or when its sidecar exists but cannot be read or decoded |
| Metadata.ChapterEntryDropped | backend/models/metadata.go:241-280 | a series-directory entry contributes nothing exactly when it is a file, its name starts with '.', or its sidecar exists but does not load |
| Metadata.ScannedChapterOwner | backend/models/metadata.go:241-280 | a chapter directory without a sidecar yields an inferred chapter owned by the scanned series, located in that directory |
| Metadata.ScanSeriesMembers | backend/models/metadata.go:60-101 | a series is in a successful scan exactly when some root entry yields it |
| Metadata.ScanChaptersMembers | backend/models/metadata.go:241-280 | a readable series directory always scans, and a chapter is in the scan exactly when some entry yields it |
| Metadata.ScanSeriesOrder | backend/models/metadata.go:60-101 | the scan keeps listing order: entries before a split point contribute a prefix of the result |
| Metadata.ScanChaptersOrder | backend/models/metadata.go:241-280 | the chapter scan keeps listing order: entries before a split point contribute a prefix of the result |
| Metadata.ChaptersPathScanned | backend/models/manga.go:110-116 | the chapter scan reads `GetChaptersPath()`, the series directory itself: it succeeds exactly when that directory is readable, and a chapter directory there without a sidecar is inferred as a chapter of this series located at `Join(GetChaptersPath(), name)` |
| Metadata.ScanChaptersReadsIdAndPath | backend/models/metadata.go:223-287 | the chapter scan depends only on the series' id and path, no other field |
| Metadata.LookupByScan | backend/models/metadata.go:142-160 | without a direct sidecar, the scan's error is passed on; otherwise the lookup succeeds exactly when some scanned series has the id, and it returns the first such series; else MangaNotFound with the source's message |
| Metadata.DirectSidecarTrusted | backend/models/metadata.go:116-135 | when `root/id/metadata.json` decodes, its record is returned without comparing its id |
| Metadata.DirectSidecarFailure | backend/models/metadata.go:116-135 | when that sidecar exists but does not load, the result is a Metadata error, with no fallback to a scan |
| Metadata.SaveThenGet | backend/models/metadata.go:116-135 | a series saved into its own directory under the root is what the next lookup of its id returns |
| Metadata.MetadataManager.constructor | backend/models/metadata.go:33-40 | the manager keeps the root directory it is given |
| Metadata.MetadataManager.ScanForManga | backend/models/metadata.go:43-107 | the loop computes exactly `ScanSeries`, whose membership, order and error behaviour the lemmas above describe |
| Metadata.MetadataManager.GetMangaByID | backend/models/metadata.go:110-161 | the fast path and the fallback search compute exactly `MangaByID`, described by the lookup lemmas above |
| Metadata.MetadataManager.FindById | backend/models/metadata.go:148-155 | the loop over the scanned series returns the index of the first one with the requested id, or -1 when none has it |
| Metadata.MetadataManager.CreateMangaFromDirectory | backend/models/metadata.go:164-220 | never fails; it returns exactly the inferred series described by `InferredSeries` |
| Metadata.MetadataManager.PickCover | backend/models/metadata.go:178-209 | the two cover passes, each stopping at its first match, pick exactly `CoverImageFor` |
| Metadata.MetadataManager.FirstCoverCandidate | backend/models/metadata.go:180-194 | the first loop skips directories and stops at the first file whose lower-cased name contains "cover" or is a thumbnail name; it returns that index, or -1 |
| Metadata.MetadataManager.FirstImage | backend/models/metadata.go:198-208 | the second loop stops at the first entry, directories included, whose lower-cased extension is ".jpg", ".png" or ".jpeg"; it returns that index, or -1 |
| Metadata.MetadataManager.ScanForChapters | backend/models/metadata.go:223-287 | the loop computes exactly `ScanChapters`: a Metadata error for an unreadable series directory, otherwise the chapters in listing order |
| Metadata.MetadataManager.CreateChapterFromDirectory | backend/models/metadata.go:290-347 | never fails; it returns exactly the inferred chapter described by `InferredChapter` |
| Metadata.MetadataManager.CountImages | backend/models/metadata.go:315-327 | the counting loop counts exactly the files (not directories) with an image extension |
| Routes.ContainsIgnoreCaseAt | backend/routes/routes.go:736-740 | `containsIgnoreCase` holds exactly when some slice of the text equals the query ignoring case |
| Routes.ContainsIgnoreCaseLowered | backend/routes/routes.go:736-740 | lowering either argument first never changes the answer |
| Routes.EqualIgnoreCaseEquivalence | backend/routes/routes.go:742-744 | `equalIgnoreCase` is reflexive, symmetric and transitive, and equal texts contain each other |
| Routes.KeepSlugChars | backend/routes/routes.go:749-750 | the regular-expression filter leaves only `a-z`, `0-9` and '-', never lengthens, and changes nothing in text that has only those |
| Routes.Collapse | backend/routes/routes.go:751-753 | runs of '-' collapsed: only dashes are dropped (the non-dash characters stay, in order), a '-' is left exactly when there was one, no "--" remains, the first character is kept, no new character appears, and slug text stays slug text |
| Routes.DoubleDash | backend/routes/routes.go:751-753 | `strings.Contains(s, "--")` holds exactly when two '-' stand side by side |
| Routes.CollapseFixed | backend/routes/routes.go:751-753 | text without "--" is already collapsed |
| Routes.HalveDashesCollapse | backend/routes/routes.go:751-753 | one `ReplaceAll(s, "--", "-")` never changes the collapsed form, which is the loop's invariant |
| Routes.CreateSlug | backend/routes/routes.go:746-756 | the loop halves "--" until none is left and terminates; the result is exactly the lower-cased, dashed, filtered, collapsed and trimmed text |
| Routes.SlugShape | backend/routes/routes.go:746-756 | a slug has only `a-z`, `0-9` and '-', contains no "--", and neither starts nor ends with '-' |
| Routes.SlugIdempotent | backend/routes/routes.go:746-756 | the slug of a slug is itself |
| Routes.SlugExample | backend/routes/routes.go:746-756 | "One Piece!" becomes "one-piece" |
| Routes.SearchManga | backend/routes/routes.go:385-414 | the search loop returns exactly the scanned series that pass both rules, in scan order |
| Routes.AnyContains | backend/routes/routes.go:389-395 | the alternative-title loop finds a match exactly when some alternative title contains the query ignoring case |
| Routes.AnyEquals | backend/routes/routes.go:401-408 | the genre loop finds a match exactly when some genre equals the requested one ignoring case |
| Routes.SearchMembers | backend/routes/routes.go:385-414 | a series is in the results exactly when it was scanned, the query is empty or found in its title, description or an alternative title, and the genre is empty or one of its genres |
| Routes.SearchOrder | backend/routes/routes.go:385-414 | results keep scan order: searching a concatenation searches each part in turn |
| Routes.SearchEverything | backend/routes/routes.go:385-414 | with no query and no genre every scanned series is returned, in order |
| Routes.FindChapter | backend/routes/routes.go:292-300 | returns the index of the first chapter, in scan order, whose number equals the requested one, or -1 when there is none (`FirstIndex` by number) |
| Routes.NextChapter | backend/routes/routes.go:337-339 | a next chapter is offered exactly from the last page on, when a chapter follows in scan order, and it is that following chapter's number |
| Routes.PrevChapter | backend/routes/routes.go:340-342 | a previous chapter is offered exactly on page 1 when a chapter precedes in scan order, and it is that preceding chapter's number |
| Routes.NextThenPrev | backend/routes/routes.go:292-342 | when chapter numbers are distinct, looking up the offered next number lands on the following chapter, and page 1 there offers the chapter just left as the previous one |
| Routes.NextWithRepeatedNumber | backend/routes/routes.go:292-342 | with a repeated number (1, 2, 1) the next link from the second chapter leads back to the first, which offers no previous chapter |
| Routes.AdjacencyOnListedPages | backend/routes/routes.go:336-342 | on pages as `GetPages` lists them, next is offered only on the last page and previous only on the first; both appear together only for a one-page chapter |
| Routes.ApplyMangaUpdate | backend/routes/routes.go:527-544 | title, description, author, artist and status are replaced only by non-empty values, and genres only by a non-empty list; every other field (id, path, cover, ...) is unchanged |
| Routes.MangaUpdateLaws | backend/routes/routes.go:527-544 | applying an update twice equals applying it once, an empty request changes nothing, and a valid series stays valid |
| Routes.UpdatedSeriesPersists | backend/routes/routes.go:527-547 | a series found under `root/id`, updated and saved to its sidecar, is what the next lookup of that id returns |
| Routes.ApplyChapterUpdate | backend/routes/routes.go:706-710 | the title is replaced only by a non-empty title; volume and special are always overwritten; nothing else changes |
| Routes.ChapterUpdateLaws | backend/routes/routes.go:706-710 | applying an update twice equals applying it once; an update without a title leaves the chapter as it was exactly when its volume was 0 and it was not special; a valid chapter stays valid |
| Routes.UpdatedChapterPersists | backend/routes/routes.go:706-712 | an updated chapter saved to the sidecar in its own directory loads back unchanged |

## Left out

- backend/main.go: configuration, log files, the router, middleware, static file serving and server start are process plumbing.
- The HTTP plumbing of the handlers: request binding, status codes, response maps and logging. Only the rules inside them are modelled. `addManga` and `addChapter` are left out, except for `createSlug`. The chapter id `"chapter-%.1f"` is left out because it is float formatting.
- Parsing route parameters with `strconv.ParseFloat` and `Atoi` is left out. So is rendering `nextChapter`/`prevChapter` with `FormatFloat`; those links are modelled as `real` numbers. A "NaN" chapter parameter, which matches no chapter, is not representable.
- `Page.LoadImageMetadata` and `Page.ImageExists`: image decoding and stat calls are foreign library code and I/O.
- Real filesystem calls are replaced by the snapshot. So are write atomicity and concurrent writers, which the code does not handle.
- The JSON codec is abstract: a sidecar either decodes to a document or fails. Marshal errors (a time out of range) and the file layout are not modelled. A `null` chapter number, decoded as 0 and then replaced by 1, behaves like an unparseable one.
- Error messages that embed the underlying OS or decoding error (`"failed to read root directory: " + err.Error()`) leave out only that error's text; the fixed text before it, `": "` included, is kept.
- Error messages that embed a chapter number with `%v` ("cannot read pages for chapter %v of manga %s", "page %d not found in chapter %v") leave the number out, because it is float formatting. The page number in the second message is kept, written in decimal.
- NextPageNumber: Go's `int` overflow is not modelled; it cannot arise for listed pages, whose numbers are at most the number of files in the directory.
- Numbers are exact rationals (`real`), not float64: there is no rounding, overflow or NaN. `Atoi` is unbounded, without its 64-bit range check.
- `strings.ToLower` changes only the ASCII letters A to Z; no other case mapping is modelled.
- `filepath.Clean` is applied to results of `Dir` and `Join` only for a trailing "." element. '.' and '..' elements inside paths and doubled '/' are kept as written.
- `LoadFromJSON` fills the record it is called on. Every caller passes a fresh zero record, so it is modelled as a function returning the loaded record.
- `GetPages` writes `c.PageCount` in place; this write is returned as the second out-parameter `updated`.
- The update handlers assign fields of the fetched record one by one; the merges are modelled as functions on values.
- A save updates only the sidecar store: the listing of the sidecar's directory does not gain a `metadata.json` entry. No modelled operation would see that entry, because the page list, the cover passes, the image count and both scans all skip it.
- Records are values, so aliasing between a `*Chapter` and the scanned slice is not modelled.
- Series and chapter sidecars are two separate stores, because one file is decoded as the record type its caller asks for.
- `time.Now` is read once per call and passed in as `now`; the source reads the clock once per record.
- `PickCover` (with its two passes `FirstCoverCandidate` and `FirstImage`), `CountImages` and `FindById` are loops of `CreateMangaFromDirectory`, `CreateChapterFromDirectory` and `GetMangaByID`, written as separate methods.
- Nil and empty slices are not distinguished.
- `GetNextPageNumber` follows the code: there is no upper bound, whatever its doc comment says.
- `os.ReadDir` sorts entries by name; the model keeps whatever order the listing gives, and its properties hold for any order.
