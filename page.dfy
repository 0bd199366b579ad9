/** A single page of a chapter: its number, image location and owners. */
module Pages {
  import opened Common
  import opened Errors
  import opened Paths

  /** `Page`; `imagePath` is internal and never part of the JSON form. */
  datatype Page = Page(
    number: int,
    imagePath: string,
    chapterId: string,
    mangaId: string,
    width: int,
    height: int,
    fileSize: int,
    mimeType: string)

  /** `GetNextPageNumber`: the following number, with no upper bound. */
  function NextPageNumber(p: Page): (r: int)
    ensures r > p.number
  {
    p.number + 1
  }

  /** `GetPrevPageNumber`: the preceding number, or 0 (none) from page 1 or below. */
  function PrevPageNumber(p: Page): (r: int)
    ensures r >= 0
    ensures r == 0 <==> p.number <= 1
    ensures r != 0 ==> r == p.number - 1
  {
    if p.number <= 1 then 0 else p.number - 1
  }

  /** Stepping forward and then back returns to the same page, for every positive number. */
  lemma PrevAfterNext(p: Page)
    requires p.number >= 1
    ensures PrevPageNumber(p.(number := NextPageNumber(p))) == p.number
  {
  }

  /** Stepping back and then forward returns to the same page, unless it was the first. */
  lemma NextAfterPrev(p: Page)
    requires p.number > 1
    ensures NextPageNumber(p.(number := PrevPageNumber(p))) == p.number
  {
  }

  /** `Validate`: the number is checked first, then the chapter id, then the image path. */
  function Validate(p: Page): (r: Option<Error>)
    ensures r.None? <==> p.number > 0 && p.chapterId != "" && p.imagePath != ""
    ensures r.Some? ==> IsValidationError(r.value)
    ensures p.number <= 0 ==> r == Some(ValidationError("page number must be positive"))
    ensures p.number > 0 && p.chapterId == "" ==> r == Some(ValidationError("chapter ID is required"))
    ensures p.number > 0 && p.chapterId != "" && p.imagePath == "" ==> r == Some(ValidationError("image path is required"))
  {
    if p.number <= 0 then Some(NewValidationError("page number must be positive"))
    else if p.chapterId == "" then Some(NewValidationError("chapter ID is required"))
    else if p.imagePath == "" then Some(NewValidationError("image path is required"))
    else None
  }

  /**
   * `GetImageURL`: `/manga-images/<manga>/<chapter>/<file>`. A missing manga or
   * chapter id is taken from `filepath.SplitList` of the image's directory, which
   * splits on ':' rather than '/', or else is "unknown".
   */
  function ImageURL(p: Page): (url: string)
    ensures p.mangaId != "" && p.chapterId != "" ==>
      url == "/manga-images/" + p.mangaId + "/" + p.chapterId + "/" + Base(p.imagePath)
    ensures |url| > |Base(p.imagePath)| && url[|url| - |Base(p.imagePath)|..] == Base(p.imagePath)
  {
    var parts := SplitList(Dir(p.imagePath));
    var mangaId := if p.mangaId != "" then p.mangaId
      else if |parts| >= 2 then parts[|parts| - 2] else "unknown";
    var chapterId := if p.chapterId != "" then p.chapterId
      else if |parts| >= 1 then parts[|parts| - 1] else "unknown";
    "/manga-images/" + mangaId + "/" + chapterId + "/" + Base(p.imagePath)
  }

  /**
   * With both ids missing and an image path without ':', the fallback never finds a
   * manga id and uses the whole directory of the image as the chapter id.
   */
  lemma ImageURLFallback(p: Page)
    requires p.mangaId == "" && p.chapterId == "" && ':' !in p.imagePath
    ensures ImageURL(p) == "/manga-images/unknown/" + Dir(p.imagePath) + "/" + Base(p.imagePath)
  {
    var d, b := Dir(p.imagePath), Base(p.imagePath);
    DirWithoutListSeparator(p.imagePath);
    assert ImageURL(p) == "/manga-images/" + "unknown" + "/" + d + "/" + b;
    UnknownPrefix(d, b);
  }

  /** The directory of a path without ':' is one list element. */
  lemma DirWithoutListSeparator(path: string)
    requires ':' !in path
    ensures SplitList(Dir(path)) == [Dir(path)]
  {
    DirCharacters(path);
    assert ':' !in Dir(path);
    SplitWithoutSeparator(Dir(path), ':');
  }

  /** The URL pieces around "unknown" join into one prefix. */
  lemma UnknownPrefix(d: string, b: string)
    ensures "/manga-images/" + "unknown" + "/" + d + "/" + b == "/manga-images/unknown/" + d + "/" + b
  {
    assert "/manga-images/" + "unknown" + "/" == "/manga-images/unknown/";
  }
}
