/**
 * The metadata manager: scanning the library root for series and a series
 * directory for chapters, preferring each directory's `metadata.json` sidecar and
 * otherwise inferring the record from the directory itself.
 */
module Metadata {
  import opened Common
  import opened Errors
  import opened Strings
  import opened Paths
  import opened Numbers
  import opened Disk
  import Chapters
  import Manga

  type Chapter = Chapters.Chapter
  type MangaSeries = Manga.MangaSeries

  /** Everything the manager reads from disk: listings and the two kinds of sidecar. */
  datatype FileSystem = FileSystem(
    dirs: Listing,
    series: Store<MangaSeries>,
    chapters: Store<Chapter>)

  // ---------------------------------------------------------------------------
  // Directory inference

  /** A name whose lower-cased extension is ".jpg", ".png" or ".jpeg". */
  predicate HasImageExtension(name: string)
  {
    var ext := ToLower(Ext(name));
    ext == ".jpg" || ext == ".png" || ext == ".jpeg"
  }

  /** First-pass cover: a file whose lower-cased name contains "cover" or is a thumbnail. */
  predicate IsCoverCandidate(e: Entry)
  {
    var lower := ToLower(e.name);
    !e.isDir && (Contains(lower, "cover") || lower == "thumbnail.jpg" || lower == "thumbnail.png")
  }

  /** Second-pass cover: any entry, directories included, with an image extension. */
  predicate IsImageEntry(e: Entry)
  {
    HasImageExtension(e.name)
  }

  /** A first-pass cover never has an empty name. */
  lemma CoverCandidateNamed(e: Entry)
    requires IsCoverCandidate(e)
    ensures e.name != ""
  {
    var lower := ToLower(e.name);
    if Contains(lower, "cover") {
      ContainsLength(lower, "cover");
    }
  }

  /**
   * The cover `CreateMangaFromDirectory` picks: the first cover candidate; when
   * that leaves the cover empty, the first entry with an image extension; else "".
   */
  function CoverImageFor(es: seq<Entry>): string
  {
    var i := FirstIndex(es, IsCoverCandidate);
    var first := if i >= 0 then es[i].name else "";
    if first != "" then first
    else
      var j := FirstIndex(es, IsImageEntry);
      if j >= 0 then es[j].name else ""
  }

  /** The first cover candidate wins, wherever image files stand. */
  lemma CoverIsFirstCandidate(es: seq<Entry>, k: int)
    requires 0 <= k < |es| && IsCoverCandidate(es[k])
    requires forall j :: 0 <= j < k ==> !IsCoverCandidate(es[j])
    ensures CoverImageFor(es) == es[k].name
  {
    FirstIndexAt(es, IsCoverCandidate, k);
    CoverCandidateNamed(es[k]);
  }

  /** Without candidates the first entry with an image extension wins, even a directory. */
  lemma CoverIsFirstImage(es: seq<Entry>, k: int)
    requires forall j :: 0 <= j < |es| ==> !IsCoverCandidate(es[j])
    requires 0 <= k < |es| && IsImageEntry(es[k])
    requires forall j :: 0 <= j < k ==> !IsImageEntry(es[j])
    ensures CoverImageFor(es) == es[k].name
  {
    FirstIndexNone(es, IsCoverCandidate);
    FirstIndexAt(es, IsImageEntry, k);
  }

  /** Without candidates and without image extensions there is no cover. */
  lemma NoCoverFound(es: seq<Entry>)
    requires forall j :: 0 <= j < |es| ==> !IsCoverCandidate(es[j]) && !IsImageEntry(es[j])
    ensures CoverImageFor(es) == ""
  {
    FirstIndexNone(es, IsCoverCandidate);
    FirstIndexNone(es, IsImageEntry);
  }

  /** The directory name with every "chapter-", then "chapter", then "ch" removed, lower-cased first. */
  function ProcessedName(dirName: string): string
  {
    ReplaceAll(ReplaceAll(ReplaceAll(ToLower(dirName), "chapter-", ""), "chapter", ""), "ch", "")
  }

  /** The inferred chapter number: the JSON number left in the processed name, or 1 when there is none or it is 0. */
  function ChapterNumberFromName(dirName: string): (r: real)
    ensures r != 0.0
    ensures ParseJsonNumber(ProcessedName(dirName)).None? ==> r == 1.0
  {
    match ParseJsonNumber(ProcessedName(dirName))
    case Some(n) => if n == 0.0 then 1.0 else n
    case None => 1.0
  }

  /** The number of files (not directories) with an image extension. */
  function ImageCount(es: seq<Entry>): (n: nat)
    ensures n <= |es|
  {
    if es == [] then 0
    else ImageCount(es[..|es| - 1]) + (if !es[|es| - 1].isDir && HasImageExtension(es[|es| - 1].name) then 1 else 0)
  }

  /** The chapter `CreateChapterFromDirectory` infers for `dirPath` of series `mangaId`. */
  function InferChapter(dirs: Listing, mangaId: string, dirPath: string, now: Time): Chapter
  {
    var name := Base(dirPath);
    Chapters.Chapter(name, mangaId, ChapterNumberFromName(name), ReplaceAll(name, "-", " "), now,
      ImageCount(EntriesOrEmpty(dirs, dirPath)), dirPath, 0, false)
  }

  // ---------------------------------------------------------------------------
  // Chapter scan

  /** Entries `ScanForChapters` considers: directories whose name does not start with '.'. */
  predicate IsChapterDir(e: Entry)
  {
    e.isDir && !HasPrefix(e.name, ".")
  }

  /** What one entry of a series directory contributes: its sidecar's chapter, an inferred chapter, or nothing. */
  function ChapterEntry(fs: FileSystem, manga: MangaSeries, now: Time, e: Entry): Option<Chapter>
  {
    if !IsChapterDir(e) then None
    else
      var chapterPath := Join(manga.path, e.name);
      var metadataPath := Join(chapterPath, MetadataFileName);
      if SidecarAt(fs.chapters, metadataPath).Absent? then Some(InferChapter(fs.dirs, manga.id, chapterPath, now))
      else
        match Chapters.LoadFromJSON(fs.chapters, metadataPath)
        case Ok(c) => Some(c)
        case Err(_) => None
  }

  function ChapterEntryOf(fs: FileSystem, manga: MangaSeries, now: Time): Entry -> Option<Chapter>
  {
    e => ChapterEntry(fs, manga, now, e)
  }

  /** `ScanForChapters`: a MetadataError when the series directory cannot be read, else its chapters in order. */
  function ScanChapters(fs: FileSystem, manga: MangaSeries, now: Time): Result<seq<Chapter>>
  {
    if manga.path !in fs.dirs then Err(NewMetadataError("failed to read manga directory: "))
    else Ok(FilterMap(fs.dirs[manga.path], ChapterEntryOf(fs, manga, now)))
  }

  // ---------------------------------------------------------------------------
  // Series scan

  /** The series `CreateMangaFromDirectory` infers for `dirPath`. */
  function InferSeries(fs: FileSystem, dirPath: string, now: Time): MangaSeries
  {
    var name := Base(dirPath);
    var m := Manga.MangaSeries(name, ReplaceAll(name, "-", " "), "No description available", "", "",
      CoverImageFor(EntriesOrEmpty(fs.dirs, dirPath)), [], "Unknown", 0, now, 0, [], dirPath);
    m.(chapterCount := match ScanChapters(fs, m, now) { case Ok(cs) => |cs| case Err(_) => 0 })
  }

  /** What one entry of the root contributes: its sidecar's series, an inferred series, or nothing. */
  function SeriesEntry(fs: FileSystem, root: string, now: Time, e: Entry): Option<MangaSeries>
  {
    if !e.isDir then None
    else
      var mangaPath := Join(root, e.name);
      var metadataPath := Join(mangaPath, MetadataFileName);
      if SidecarAt(fs.series, metadataPath).Absent? then Some(InferSeries(fs, mangaPath, now))
      else
        match Manga.LoadFromJSON(fs.series, metadataPath)
        case Ok(m) => Some(m)
        case Err(_) => None
  }

  function SeriesEntryOf(fs: FileSystem, root: string, now: Time): Entry -> Option<MangaSeries>
  {
    e => SeriesEntry(fs, root, now, e)
  }

  /** `ScanForManga`: a MetadataError when the root cannot be read, else its series in order. */
  function ScanSeries(fs: FileSystem, root: string, now: Time): (r: Result<seq<MangaSeries>>)
    ensures r.Err? <==> root !in fs.dirs
    ensures r.Err? ==> IsMetadataError(r.error)
  {
    if root !in fs.dirs then Err(NewMetadataError("failed to read root directory: "))
    else Ok(FilterMap(fs.dirs[root], SeriesEntryOf(fs, root, now)))
  }

  /** The sidecar path `GetMangaByID` tries first. */
  function DirectSidecar(root: string, id: string): string
  {
    Join(Join(root, id), MetadataFileName)
  }

  /** The test the lookup applies to each scanned series. */
  function HasId(id: string): MangaSeries -> bool
  {
    (m: MangaSeries) => m.id == id
  }

  /**
   * `GetMangaByID`: when `root/id/metadata.json` exists, whatever loading it gives
   * (its `id` is not compared, and a load error is final); otherwise the first
   * scanned series with that id, the scan's error, or MangaNotFound.
   */
  function MangaByID(fs: FileSystem, root: string, id: string, now: Time): Result<MangaSeries>
  {
    var metadataPath := DirectSidecar(root, id);
    if !SidecarAt(fs.series, metadataPath).Absent? then Manga.LoadFromJSON(fs.series, metadataPath)
    else
      match ScanSeries(fs, root, now)
      case Err(e) => Err(e)
      case Ok(ms) =>
        var k := FirstIndex(ms, HasId(id));
        if k >= 0 then Ok(ms[k]) else Err(NewMangaNotFoundError("no manga with ID: " + id))
  }

  // ---------------------------------------------------------------------------
  // Properties

  /** A directory named "chapter-" and a non-zero integer gets that integer as its number ("chapter--2" gives -2). */
  lemma ChapterNumberOfDecimal(k: int)
    requires k != 0
    ensures ChapterNumberFromName("chapter-" + IntToDecimal(k)) == k as real
  {
    IntToDecimalCharacters(k);
    ProcessedAfterPrefix(IntToDecimal(k));
    ParseJsonNumberOfDecimal(k);
  }

  /**
   * A zero-padded chapter directory such as "chapter-007" becomes chapter 1: the digits
   * left after the prefix is removed start with '0', which JSON does not accept.
   */
  lemma ZeroPaddedIsChapterOne(ds: string)
    requires ds != [] && AllDigits(ds)
    ensures ChapterNumberFromName("chapter-0" + ds) == 1.0
  {
    var rest := "0" + ds;
    assert "chapter-0" + ds == "chapter-" + rest;
    assert forall i :: 0 <= i < |rest| ==> IsDigit(rest[i]);
    ProcessedAfterPrefix(rest);
    ZeroPaddedRejected(ds);
  }

  /** "chapter-" followed by a non-zero decimal fraction `n.ds` gets that fraction as its number ("chapter-1.5" gives 1.5). */
  lemma ChapterNumberOfFraction(n: nat, ds: string)
    requires ds != [] && AllDigits(ds) && FractionValue(n, ds) != 0.0
    ensures ChapterNumberFromName("chapter-" + (NatToDecimal(n) + "." + ds)) == FractionValue(n, ds)
  {
    var rest := NatToDecimal(n) + "." + ds;
    assert forall i :: 0 <= i < |rest| ==> IsDigit(rest[i]) || rest[i] == '.';
    ProcessedAfterPrefix(rest);
    ParseJsonNumberOfFraction(n, ds);
  }

  /** After "chapter-", digits, '-' and '.' survive the processing of the name unchanged. */
  lemma ProcessedAfterPrefix(rest: string)
    requires forall i :: 0 <= i < |rest| ==> IsDigit(rest[i]) || rest[i] == '-' || rest[i] == '.'
    ensures ProcessedName("chapter-" + rest) == rest
  {
    var name := "chapter-" + rest;
    assert forall i :: 8 <= i < |name| ==> name[i] == rest[i - 8];
    ToLowerFixed(name);
    assert 'c' !in rest;
    assert HasPrefix(name, "chapter-") && name[8..] == rest;
    ReplaceAllAbsent(rest, "chapter-", "");
    assert ReplaceAll(name, "chapter-", "") == rest;
    ReplaceAllAbsent(rest, "chapter", "");
    ReplaceAllAbsent(rest, "ch", "");
  }

  /** A directory name without a digit never yields a number, so it becomes chapter 1. */
  lemma NoDigitIsChapterOne(dirName: string)
    requires forall i :: 0 <= i < |dirName| ==> !IsDigit(dirName[i])
    ensures ChapterNumberFromName(dirName) == 1.0
  {
    var lower := ToLower(dirName);
    var a := ReplaceAll(lower, "chapter-", "");
    var b := ReplaceAll(a, "chapter", "");
    var p := ReplaceAll(b, "ch", "");
    forall i | 0 <= i < |p| ensures !IsDigit(p[i]) {
      ReplaceAllDeletes(b, "ch", p[i]);
      ReplaceAllDeletes(a, "chapter", p[i]);
      ReplaceAllDeletes(lower, "chapter-", p[i]);
    }
    NoDigitNoNumber(p);
  }

  /** Only image files are counted, and no image file is a metadata file, so `GetPages` lists at least as many pages. */
  lemma {:induction false} ImageCountBelowPageFiles(es: seq<Entry>)
    ensures ImageCount(es) <= |Chapters.PageFiles(es)|
    decreases |es|
  {
    if es != [] {
      var e := es[|es| - 1];
      ImageCountBelowPageFiles(es[..|es| - 1]);
      if !e.isDir && HasImageExtension(e.name) {
        Chapters.IsMetadataFileByExtension(e.name);
        assert ToLower(".json") == ".json";
        assert Chapters.IsPageFile(e);
      }
    }
  }

  /**
   * An inferred chapter: id and path from the directory, title with each '-' turned
   * into a space, a non-zero number, and a page count no larger than `GetPages` lists.
   */
  lemma InferredChapter(dirs: Listing, mangaId: string, dirPath: string, now: Time)
    ensures var c := InferChapter(dirs, mangaId, dirPath, now);
      && c.id == Base(dirPath) && c.mangaId == mangaId && c.path == dirPath && c.number != 0.0
      && |c.title| == |c.id|
      && (forall i :: 0 <= i < |c.id| ==> c.title[i] == (if c.id[i] == '-' then ' ' else c.id[i]))
      && c.pageCount <= |Chapters.PageFiles(EntriesOrEmpty(dirs, dirPath))|
      && (dirPath !in dirs ==> c.pageCount == 0)
      && (Chapters.Validate(c).None? <==> mangaId != "" && c.number > 0.0)
  {
    ReplaceAllChar(Base(dirPath), '-', ' ');
    ImageCountBelowPageFiles(EntriesOrEmpty(dirs, dirPath));
  }

  /**
   * An inferred series: id and path from the directory, title with each '-' turned
   * into a space, the fixed description and status; it always validates, and an
   * unreadable directory gives no cover and no chapters.
   */
  lemma InferredSeries(fs: FileSystem, dirPath: string, now: Time)
    ensures var m := InferSeries(fs, dirPath, now);
      && m.id == Base(dirPath) && m.path == dirPath && m.lastUpdated == now
      && |m.title| == |m.id|
      && (forall i :: 0 <= i < |m.id| ==> m.title[i] == (if m.id[i] == '-' then ' ' else m.id[i]))
      && m.description == "No description available" && m.status == "Unknown"
      && Manga.Validate(m).None?
      && m.coverImage == CoverImageFor(EntriesOrEmpty(fs.dirs, dirPath))
      && (dirPath !in fs.dirs ==> m.coverImage == "" && m.chapterCount == 0)
      && (dirPath in fs.dirs ==> m.chapterCount == |ScanChapters(fs, m, now).value| <= |fs.dirs[dirPath]|)
  {
    ReplaceAllChar(Base(dirPath), '-', ' ');
    BaseNonEmpty(dirPath);
    FirstIndexNone([], IsCoverCandidate);
    FirstIndexNone([], IsImageEntry);
    var m := InferSeries(fs, dirPath, now);
    ScanChaptersReadsIdAndPath(fs, m, m.(chapterCount := 0), now);
  }

  /** A chapter scan looks only at the series' id and path. */
  lemma ScanChaptersReadsIdAndPath(fs: FileSystem, a: MangaSeries, b: MangaSeries, now: Time)
    requires a.id == b.id && a.path == b.path
    ensures ScanChapters(fs, a, now) == ScanChapters(fs, b, now)
  {
    if a.path in fs.dirs {
      FilterMapCongruent(fs.dirs[a.path], ChapterEntryOf(fs, a, now), ChapterEntryOf(fs, b, now));
    }
  }

  /** A root entry yields nothing exactly when it is a file or its sidecar exists but does not load. */
  lemma SeriesEntryDropped(fs: FileSystem, root: string, now: Time, e: Entry)
    ensures SeriesEntry(fs, root, now, e).None? <==>
      !e.isDir || SidecarAt(fs.series, Join(Join(root, e.name), MetadataFileName)) in {Unreadable, Malformed}
  {
  }

  /** A series-directory entry yields nothing exactly when it is a file, hidden, or has a sidecar that does not load. */
  lemma ChapterEntryDropped(fs: FileSystem, manga: MangaSeries, now: Time, e: Entry)
    ensures ChapterEntry(fs, manga, now, e).None? <==>
      !e.isDir || HasPrefix(e.name, ".") ||
      SidecarAt(fs.chapters, Join(Join(manga.path, e.name), MetadataFileName)) in {Unreadable, Malformed}
  {
  }

  /** A chapter inferred during a scan belongs to the scanned series and lives in the entry's directory. */
  lemma ScannedChapterOwner(fs: FileSystem, manga: MangaSeries, now: Time, e: Entry)
    requires IsChapterDir(e)
    requires SidecarAt(fs.chapters, Join(Join(manga.path, e.name), MetadataFileName)).Absent?
    ensures ChapterEntry(fs, manga, now, e).Some?
    ensures ChapterEntry(fs, manga, now, e).value.mangaId == manga.id
    ensures ChapterEntry(fs, manga, now, e).value.path == Join(manga.path, e.name)
  {
  }

  /**
   * The directory `GetChaptersPath` names is the one a chapter scan reads: the scan
   * succeeds exactly when that directory is listed, yields at most one chapter per
   * entry, and infers a sidecar-less chapter directory's chapter at its path under it.
   */
  lemma ChaptersPathScanned(fs: FileSystem, manga: MangaSeries, now: Time)
    ensures ScanChapters(fs, manga, now).Ok? <==> Manga.ChaptersPath(manga) in fs.dirs
    ensures ScanChapters(fs, manga, now).Ok? ==>
      |ScanChapters(fs, manga, now).value| <= |fs.dirs[Manga.ChaptersPath(manga)]|
    ensures forall e: Entry {:trigger ChapterEntry(fs, manga, now, e)} ::
      IsChapterDir(e) &&
      SidecarAt(fs.chapters, Join(Join(Manga.ChaptersPath(manga), e.name), MetadataFileName)).Absent? ==>
        ChapterEntry(fs, manga, now, e) == Some(InferChapter(fs.dirs, manga.id, Join(Manga.ChaptersPath(manga), e.name), now)) &&
        ChapterEntry(fs, manga, now, e).value.path == Join(Manga.ChaptersPath(manga), e.name) &&
        ChapterEntry(fs, manga, now, e).value.mangaId == manga.id
  {
  }

  /** Chapter scans keep listing order: the entries before a split point contribute a prefix of the result. */
  lemma ScanChaptersOrder(fs: FileSystem, manga: MangaSeries, now: Time, front: seq<Entry>, back: seq<Entry>)
    requires manga.path in fs.dirs && fs.dirs[manga.path] == front + back
    ensures ScanChapters(fs, manga, now).value ==
      FilterMap(front, ChapterEntryOf(fs, manga, now)) + FilterMap(back, ChapterEntryOf(fs, manga, now))
  {
    FilterMapAppend(front, back, ChapterEntryOf(fs, manga, now));
  }

  /** A series is in a successful scan exactly when some root entry yields it. */
  lemma ScanSeriesMembers(fs: FileSystem, root: string, now: Time, m: MangaSeries)
    requires root in fs.dirs
    ensures m in ScanSeries(fs, root, now).value <==>
      exists k :: 0 <= k < |fs.dirs[root]| && SeriesEntry(fs, root, now, fs.dirs[root][k]) == Some(m)
  {
    FilterMapMembership(fs.dirs[root], SeriesEntryOf(fs, root, now), m);
  }

  /** A chapter is in a successful scan exactly when some entry of the series directory yields it. */
  lemma ScanChaptersMembers(fs: FileSystem, manga: MangaSeries, now: Time, c: Chapter)
    requires manga.path in fs.dirs
    ensures ScanChapters(fs, manga, now).Ok?
    ensures c in ScanChapters(fs, manga, now).value <==>
      exists k :: 0 <= k < |fs.dirs[manga.path]| && ChapterEntry(fs, manga, now, fs.dirs[manga.path][k]) == Some(c)
  {
    FilterMapMembership(fs.dirs[manga.path], ChapterEntryOf(fs, manga, now), c);
  }

  /** Scans keep listing order: the entries before a split point contribute a prefix of the result. */
  lemma ScanSeriesOrder(fs: FileSystem, root: string, now: Time, front: seq<Entry>, back: seq<Entry>)
    requires root in fs.dirs && fs.dirs[root] == front + back
    ensures ScanSeries(fs, root, now).value ==
      FilterMap(front, SeriesEntryOf(fs, root, now)) + FilterMap(back, SeriesEntryOf(fs, root, now))
  {
    FilterMapAppend(front, back, SeriesEntryOf(fs, root, now));
  }

  /**
   * Without a direct sidecar the lookup is a scan: the scan's error, else the first
   * scanned series with the id, else MangaNotFound.
   */
  lemma LookupByScan(fs: FileSystem, root: string, id: string, now: Time)
    requires SidecarAt(fs.series, DirectSidecar(root, id)).Absent?
    ensures root !in fs.dirs ==> MangaByID(fs, root, id, now) == Err(ScanSeries(fs, root, now).error)
    ensures root in fs.dirs ==>
      var ms := ScanSeries(fs, root, now).value;
      var r := MangaByID(fs, root, id, now);
      && (r.Ok? <==> exists k :: 0 <= k < |ms| && ms[k].id == id)
      && (r.Ok? ==> exists k :: 0 <= k < |ms| && ms[k] == r.value && ms[k].id == id &&
                      forall j :: 0 <= j < k ==> ms[j].id != id)
      && (r.Err? ==> r == Err(MangaNotFoundError("no manga with ID: " + id)))
  {
  }

  /** The direct sidecar is trusted: its record is returned even when its id differs from the one asked for. */
  lemma DirectSidecarTrusted(fs: FileSystem, root: string, id: string, now: Time, doc: MangaSeries)
    requires SidecarAt(fs.series, DirectSidecar(root, id)) == Loads(doc)
    ensures MangaByID(fs, root, id, now) == Ok(doc.(path := Dir(DirectSidecar(root, id))))
  {
  }

  /** A direct sidecar that cannot be read or decoded is a MetadataError, with no scan as fallback. */
  lemma DirectSidecarFailure(fs: FileSystem, root: string, id: string, now: Time)
    requires SidecarAt(fs.series, DirectSidecar(root, id)) in {Unreadable, Malformed}
    ensures MangaByID(fs, root, id, now).Err? && IsMetadataError(MangaByID(fs, root, id, now).error)
  {
  }

  /** After a series is saved into its own directory under the root, looking up its id returns it unchanged. */
  lemma SaveThenGet(fs: FileSystem, root: string, m: MangaSeries, now: Time)
    requires IsCleanDir(root) && IsElement(m.id) && m.path == Join(root, m.id) && m.path in fs.dirs
    ensures Manga.SaveToJSON(fs.dirs, fs.series, m, DirectSidecar(root, m.id)).Ok?
    ensures MangaByID(fs.(series := Manga.SaveToJSON(fs.dirs, fs.series, m, DirectSidecar(root, m.id)).value),
                      root, m.id, now) == Ok(m)
  {
    JoinClean(root, m.id);
    Manga.SaveThenLoadInPlace(fs.dirs, fs.series, m);
  }

  // ---------------------------------------------------------------------------
  // The manager

  /** `MetadataManager`: the library root every scan starts from. */
  class MetadataManager {
    const rootDir: string

    /** `NewMetadataManager`. */
    constructor(rootDir: string)
      ensures this.rootDir == rootDir
    {
      this.rootDir := rootDir;
    }

    /** `ScanForManga`. */
    method ScanForManga(fs: FileSystem, now: Time) returns (r: Result<seq<MangaSeries>>)
      ensures r == ScanSeries(fs, rootDir, now)
    {
      if rootDir !in fs.dirs {
        return Err(NewMetadataError("failed to read root directory: "));
      }
      var dirs := fs.dirs[rootDir];
      var mangas: seq<MangaSeries> := [];
      for i := 0 to |dirs|
        invariant mangas == FilterMap(dirs[..i], SeriesEntryOf(fs, rootDir, now))
      {
        assert dirs[..i + 1][..i] == dirs[..i];
        var dir := dirs[i];
        if !dir.isDir {
          continue;
        }
        var mangaPath := Join(rootDir, dir.name);
        var metadataPath := Join(mangaPath, MetadataFileName);
        if !SidecarAt(fs.series, metadataPath).Absent? {
          var loaded := Manga.LoadFromJSON(fs.series, metadataPath);
          if loaded.Err? {
            continue;
          }
          mangas := mangas + [loaded.value];
        } else {
          var created := CreateMangaFromDirectory(fs, mangaPath, now);
          if created.Ok? {
            mangas := mangas + [created.value];
          }
        }
      }
      assert dirs[..|dirs|] == dirs;
      return Ok(mangas);
    }

    /** `GetMangaByID`. */
    method GetMangaByID(fs: FileSystem, id: string, now: Time) returns (r: Result<MangaSeries>)
      ensures r == MangaByID(fs, rootDir, id, now)
    {
      var mangaPath := Join(rootDir, id);
      var metadataPath := Join(mangaPath, MetadataFileName);
      if !SidecarAt(fs.series, metadataPath).Absent? {
        var loaded := Manga.LoadFromJSON(fs.series, metadataPath);
        if loaded.Err? {
          return Err(loaded.error);
        }
        return Ok(loaded.value);
      }
      var scanned := ScanForManga(fs, now);
      if scanned.Err? {
        return Err(scanned.error);
      }
      var mangas := scanned.value;
      var k := FindById(mangas, id);
      if k >= 0 {
        return Ok(mangas[k]);
      }
      return Err(NewMangaNotFoundError("no manga with ID: " + id));
    }

    /** The search loop of `GetMangaByID`: the index of the first series with the id, or -1. */
    method FindById(mangas: seq<MangaSeries>, id: string) returns (k: int)
      ensures k == FirstIndex(mangas, HasId(id))
      ensures 0 <= k ==> k < |mangas| && mangas[k].id == id
    {
      for i := 0 to |mangas|
        invariant forall j :: 0 <= j < i ==> mangas[j].id != id
      {
        if mangas[i].id == id {
          FirstIndexAt(mangas, HasId(id), i);
          return i;
        }
      }
      FirstIndexNone(mangas, HasId(id));
      return -1;
    }

    /** `CreateMangaFromDirectory`: never fails. */
    method CreateMangaFromDirectory(fs: FileSystem, dirPath: string, now: Time) returns (r: Result<MangaSeries>)
      ensures r == Ok(InferSeries(fs, dirPath, now))
    {
      var name := Base(dirPath);
      var manga := Manga.MangaSeries(name, ReplaceAll(name, "-", " "), "No description available", "", "",
        "", [], "Unknown", 0, now, 0, [], dirPath);
      var cover := PickCover(EntriesOrEmpty(fs.dirs, dirPath));
      manga := manga.(coverImage := cover);
      var chapters := ScanForChapters(fs, manga, now);
      manga := manga.(chapterCount := if chapters.Ok? then |chapters.value| else 0);
      return Ok(manga);
    }

    /** The two cover passes of `CreateMangaFromDirectory`, each stopping at its first match. */
    method PickCover(files: seq<Entry>) returns (cover: string)
      ensures cover == CoverImageFor(files)
    {
      cover := "";
      var i := FirstCoverCandidate(files);
      if i >= 0 {
        cover := files[i].name;
      }
      if cover == "" {
        var j := FirstImage(files);
        if j >= 0 {
          cover := files[j].name;
        }
      }
    }

    /** The first cover pass: the index of the first file named like a cover, or -1. */
    method FirstCoverCandidate(files: seq<Entry>) returns (k: int)
      ensures k == FirstIndex(files, IsCoverCandidate)
    {
      for i := 0 to |files|
        invariant forall j :: 0 <= j < i ==> !IsCoverCandidate(files[j])
      {
        if files[i].isDir {
          continue;
        }
        var lower := ToLower(files[i].name);
        if Contains(lower, "cover") || lower == "thumbnail.jpg" || lower == "thumbnail.png" {
          FirstIndexAt(files, IsCoverCandidate, i);
          return i;
        }
      }
      FirstIndexNone(files, IsCoverCandidate);
      return -1;
    }

    /** The second cover pass: the index of the first entry with an image extension, or -1. */
    method FirstImage(files: seq<Entry>) returns (k: int)
      ensures k == FirstIndex(files, IsImageEntry)
    {
      for i := 0 to |files|
        invariant forall j :: 0 <= j < i ==> !IsImageEntry(files[j])
      {
        var ext := ToLower(Ext(files[i].name));
        if ext == ".jpg" || ext == ".png" || ext == ".jpeg" {
          FirstIndexAt(files, IsImageEntry, i);
          return i;
        }
      }
      FirstIndexNone(files, IsImageEntry);
      return -1;
    }

    /** `ScanForChapters`. */
    method ScanForChapters(fs: FileSystem, manga: MangaSeries, now: Time) returns (r: Result<seq<Chapter>>)
      ensures r == ScanChapters(fs, manga, now)
    {
      if manga.path !in fs.dirs {
        return Err(NewMetadataError("failed to read manga directory: "));
      }
      var entries := fs.dirs[manga.path];
      var chapters: seq<Chapter> := [];
      for i := 0 to |entries|
        invariant chapters == FilterMap(entries[..i], ChapterEntryOf(fs, manga, now))
      {
        assert entries[..i + 1][..i] == entries[..i];
        var entry := entries[i];
        if !entry.isDir || HasPrefix(entry.name, ".") {
          continue;
        }
        var chapterPath := Join(manga.path, entry.name);
        var metadataPath := Join(chapterPath, MetadataFileName);
        if !SidecarAt(fs.chapters, metadataPath).Absent? {
          var loaded := Chapters.LoadFromJSON(fs.chapters, metadataPath);
          if loaded.Err? {
            continue;
          }
          chapters := chapters + [loaded.value];
        } else {
          var created := CreateChapterFromDirectory(fs, manga.id, chapterPath, now);
          if created.Ok? {
            chapters := chapters + [created.value];
          }
        }
      }
      assert entries[..|entries|] == entries;
      return Ok(chapters);
    }

    /** `CreateChapterFromDirectory`: never fails. */
    method CreateChapterFromDirectory(fs: FileSystem, mangaId: string, dirPath: string, now: Time)
      returns (r: Result<Chapter>)
      ensures r == Ok(InferChapter(fs.dirs, mangaId, dirPath, now))
    {
      var dirName := Base(dirPath);
      var chapterNumber: real := 0.0;
      var processedName := ToLower(dirName);
      processedName := ReplaceAll(processedName, "chapter-", "");
      processedName := ReplaceAll(processedName, "chapter", "");
      processedName := ReplaceAll(processedName, "ch", "");
      assert processedName == ProcessedName(dirName);
      match ParseJsonNumber(processedName) {
        case Some(n) => chapterNumber := n;
        case None =>
      }
      if chapterNumber == 0.0 {
        chapterNumber := 1.0;
      }
      assert chapterNumber == ChapterNumberFromName(dirName);
      var pageCount := CountImages(EntriesOrEmpty(fs.dirs, dirPath));
      return Ok(Chapters.Chapter(dirName, mangaId, chapterNumber, ReplaceAll(dirName, "-", " "), now,
        pageCount, dirPath, 0, false));
    }

    /** The page-counting loop of `CreateChapterFromDirectory`. */
    method CountImages(entries: seq<Entry>) returns (pageCount: nat)
      ensures pageCount == ImageCount(entries)
    {
      pageCount := 0;
      for i := 0 to |entries|
        invariant pageCount == ImageCount(entries[..i])
      {
        assert entries[..i + 1][..i] == entries[..i];
        if entries[i].isDir {
          continue;
        }
        var ext := ToLower(Ext(entries[i].name));
        if ext == ".jpg" || ext == ".png" || ext == ".jpeg" {
          pageCount := pageCount + 1;
        }
      }
      assert entries[..|entries|] == entries;
    }
  }
}
