/** A manga series: its record, sidecar codec and the paths and URL derived from it. */
module Manga {
  import opened Common
  import opened Errors
  import opened Paths
  import opened Disk

  /** `MangaSeries`; `path` is internal and never part of the JSON form. */
  datatype MangaSeries = MangaSeries(
    id: string,
    title: string,
    description: string,
    author: string,
    artist: string,
    coverImage: string,
    genres: seq<string>,
    status: string,
    publishedYear: int,
    lastUpdated: Time,
    chapterCount: int,
    altTitles: seq<string>,
    path: string)

  /** `Validate`: the id is checked first, then the title. */
  function Validate(m: MangaSeries): (r: Option<Error>)
    ensures r.None? <==> m.id != "" && m.title != ""
    ensures r.Some? ==> IsValidationError(r.value)
    ensures m.id == "" ==> r == Some(ValidationError("manga ID is required"))
    ensures m.id != "" && m.title == "" ==> r == Some(ValidationError("manga title is required"))
  {
    if m.id == "" then Some(NewValidationError("manga ID is required"))
    else if m.title == "" then Some(NewValidationError("manga title is required"))
    else None
  }

  /** The part of a series that its JSON document holds: everything but `path`. */
  function JsonImage(m: MangaSeries): (d: MangaSeries)
    ensures d.path == "" && d.(path := m.path) == m
  {
    m.(path := "")
  }

  /**
   * `LoadFromJSON` into a zero `MangaSeries`: the decoded document with `path` set
   * to the sidecar's directory; a MetadataError when the file cannot be read or decoded.
   */
  function LoadFromJSON(store: Store<MangaSeries>, path: string): (r: Result<MangaSeries>)
    ensures r.Ok? <==> SidecarAt(store, path).Loads?
    ensures r.Ok? ==> r.value.path == Dir(path) && JsonImage(r.value) == JsonImage(SidecarAt(store, path).doc)
    ensures r.Err? ==> IsMetadataError(r.error)
  {
    match SidecarAt(store, path)
    case Loads(doc) => Ok(doc.(path := Dir(path)))
    case Malformed => Err(NewMetadataError("failed to parse manga metadata: "))
    case _ => Err(NewMetadataError("failed to read manga metadata: "))
  }

  /** `SaveToJSON`: writes the JSON form of `m` when the directory exists, else a MetadataError. */
  function SaveToJSON(dirs: Listing, store: Store<MangaSeries>, m: MangaSeries, path: string): (r: Result<Store<MangaSeries>>)
    ensures r.Ok? <==> CanWrite(dirs, path)
    ensures r.Ok? ==> SidecarAt(r.value, path) == Loads(JsonImage(m))
    ensures r.Ok? ==> forall q :: q != path ==> SidecarAt(r.value, q) == SidecarAt(store, q)
    ensures r.Err? ==> IsMetadataError(r.error)
  {
    if CanWrite(dirs, path) then Ok(store[path := Loads(JsonImage(m))])
    else Err(NewMetadataError("failed to write manga metadata: "))
  }

  /** Saving and loading again gives back every field but `path`, which becomes the sidecar's directory. */
  lemma SaveThenLoad(dirs: Listing, store: Store<MangaSeries>, m: MangaSeries, path: string)
    requires SaveToJSON(dirs, store, m, path).Ok?
    ensures LoadFromJSON(SaveToJSON(dirs, store, m, path).value, path) == Ok(m.(path := Dir(path)))
  {
  }

  /** Saving a series to the sidecar inside its own directory and loading it gives back the series unchanged. */
  lemma SaveThenLoadInPlace(dirs: Listing, store: Store<MangaSeries>, m: MangaSeries)
    requires IsCleanDir(m.path) && m.path in dirs
    ensures SaveToJSON(dirs, store, m, Join(m.path, MetadataFileName)).Ok?
    ensures LoadFromJSON(SaveToJSON(dirs, store, m, Join(m.path, MetadataFileName)).value,
                         Join(m.path, MetadataFileName)) == Ok(m)
  {
    DirJoin(m.path, MetadataFileName);
  }

  /** `GetChaptersPath`: chapters live directly in the series directory. */
  function ChaptersPath(m: MangaSeries): string
  {
    m.path
  }

  /** `GetCoverImagePath`: the last element of `coverImage`, inside the series directory. */
  function CoverImagePath(m: MangaSeries): string
  {
    Join(m.path, Base(m.coverImage))
  }

  /** `GetCoverImageURL`: `/manga-images/<id>/` followed by the last element of `coverImage`. */
  function CoverImageURL(m: MangaSeries): (url: string)
    ensures |url| > 15 + |m.id| && url[..15 + |m.id|] == "/manga-images/" + m.id + "/"
    ensures url[15 + |m.id|..] == Base(m.coverImage)
  {
    "/manga-images/" + m.id + "/" + Base(m.coverImage)
  }

  /** A cover given with any directory in front resolves to the same file in the series directory. */
  lemma CoverImagePathLastElement(m: MangaSeries, d: string, n: string)
    requires IsCleanDir(m.path) && IsElement(n) && m.coverImage == Join(d, n)
    ensures CoverImagePath(m) == Join(m.path, n)
    ensures Dir(CoverImagePath(m)) == m.path && Base(CoverImagePath(m)) == n
  {
    BaseJoin(d, n);
    DirJoin(m.path, n);
    BaseJoin(m.path, n);
  }

  /** With no cover, the cover path is the series directory itself and the URL ends in ".". */
  lemma NoCover(m: MangaSeries)
    requires m.coverImage == "" && m.path != ""
    ensures CoverImagePath(m) == m.path
    ensures CoverImageURL(m) == "/manga-images/" + m.id + "/."
  {
  }

  /** The URL depends on the cover's last element only. */
  lemma CoverImageURLLastElement(m: MangaSeries, d: string, n: string)
    requires IsElement(n) && m.coverImage == Join(d, n)
    ensures CoverImageURL(m) == "/manga-images/" + m.id + "/" + n
    ensures CoverImageURL(m) == CoverImageURL(m.(coverImage := Base(m.coverImage)))
  {
    BaseJoin(d, n);
    BaseIdempotent(m.coverImage);
  }
}
