/** A chapter of a series: its record, sidecar codec and page listing. */
module Chapters {
  import opened Common
  import opened Errors
  import opened Strings
  import opened Paths
  import opened Numbers
  import opened Disk
  import opened Pages

  /** `Chapter`; `path` is internal and never part of the JSON form. */
  datatype Chapter = Chapter(
    id: string,
    mangaId: string,
    number: real,
    title: string,
    releaseDate: Time,
    pageCount: int,
    path: string,
    volume: int,
    special: bool)

  /** `Validate`: the manga id is checked first, then the number. */
  function Validate(c: Chapter): (r: Option<Error>)
    ensures r.None? <==> c.mangaId != "" && c.number > 0.0
    ensures r.Some? ==> IsValidationError(r.value)
    ensures c.mangaId == "" ==> r == Some(ValidationError("manga ID is required"))
    ensures c.mangaId != "" && c.number <= 0.0 ==> r == Some(ValidationError("chapter number must be positive"))
  {
    if c.mangaId == "" then Some(NewValidationError("manga ID is required"))
    else if c.number <= 0.0 then Some(NewValidationError("chapter number must be positive"))
    else None
  }

  /** The part of a chapter that its JSON document holds: everything but `path`. */
  function JsonImage(c: Chapter): (d: Chapter)
    ensures d.path == "" && d.(path := c.path) == c
  {
    c.(path := "")
  }

  /**
   * `LoadFromJSON` into a zero `Chapter`: the decoded document with `path` set to
   * the sidecar's directory; a MetadataError when the file cannot be read or decoded.
   */
  function LoadFromJSON(store: Store<Chapter>, path: string): (r: Result<Chapter>)
    ensures r.Ok? <==> SidecarAt(store, path).Loads?
    ensures r.Ok? ==> r.value.path == Dir(path) && JsonImage(r.value) == JsonImage(SidecarAt(store, path).doc)
    ensures r.Err? ==> IsMetadataError(r.error)
  {
    match SidecarAt(store, path)
    case Loads(doc) => Ok(doc.(path := Dir(path)))
    case Malformed => Err(NewMetadataError("failed to parse chapter metadata: "))
    case _ => Err(NewMetadataError("failed to read chapter metadata: "))
  }

  /** `SaveToJSON`: writes the JSON form of `c` when the directory exists, else a MetadataError. */
  function SaveToJSON(dirs: Listing, store: Store<Chapter>, c: Chapter, path: string): (r: Result<Store<Chapter>>)
    ensures r.Ok? <==> CanWrite(dirs, path)
    ensures r.Ok? ==> SidecarAt(r.value, path) == Loads(JsonImage(c))
    ensures r.Ok? ==> forall q :: q != path ==> SidecarAt(r.value, q) == SidecarAt(store, q)
    ensures r.Err? ==> IsMetadataError(r.error)
  {
    if CanWrite(dirs, path) then Ok(store[path := Loads(JsonImage(c))])
    else Err(NewMetadataError("failed to write chapter metadata: "))
  }

  /** Saving and loading again gives back every field but `path`, which becomes the sidecar's directory. */
  lemma SaveThenLoad(dirs: Listing, store: Store<Chapter>, c: Chapter, path: string)
    requires SaveToJSON(dirs, store, c, path).Ok?
    ensures LoadFromJSON(SaveToJSON(dirs, store, c, path).value, path) == Ok(c.(path := Dir(path)))
  {
  }

  /** `isMetadataFile`: the sidecar itself or any file whose extension is exactly ".json". */
  predicate IsMetadataFile(name: string)
  {
    name == MetadataFileName || Ext(name) == ".json"
  }

  /** The sidecar name is one case of the extension rule, so the rule alone decides. */
  lemma IsMetadataFileByExtension(name: string)
    ensures IsMetadataFile(name) <==> Ext(name) == ".json"
  {
    if name == MetadataFileName {
      assert name == "metadata" + ".json";
      assert IsExtension(".json");
      ExtOfSuffix("metadata", ".json");
    }
  }

  /** An entry `GetPages` turns into a page: a file that is not metadata. */
  predicate IsPageFile(e: Entry)
  {
    !e.isDir && !IsMetadataFile(e.name)
  }

  /** The page files of a listing, in listing order. */
  function PageFiles(es: seq<Entry>): (r: seq<Entry>)
    ensures |r| <= |es|
  {
    if es == [] then []
    else
      var prev := PageFiles(es[..|es| - 1]);
      if IsPageFile(es[|es| - 1]) then prev + [es[|es| - 1]] else prev
  }

  /** The page `GetPages` builds for file `name` of chapter `c`. */
  function PageAt(c: Chapter, name: string, number: int): Page
  {
    Page(number, Join(c.path, name), c.id, c.mangaId, 0, 0, 0, "")
  }

  /**
   * The stem `GetPages` hands to `strconv.Atoi`: the extension of the base name,
   * cut short by the length of its own extension.
   */
  function PageStem(name: string): string
  {
    var e := Ext(Base(name));
    e[..|e| - |Ext(e)|]
  }

  /** Whatever the file name, the stem is empty: the extension of an extension is itself. */
  lemma PageStemEmpty(name: string)
    ensures PageStem(name) == ""
  {
    ExtIdempotent(Base(name));
  }

  /**
   * The pages of a listing in the order `GetPages` appends them: each page file
   * numbered one more than the pages before it.
   */
  function PageSequence(c: Chapter, es: seq<Entry>): seq<Page>
  {
    if es == [] then []
    else
      var prev := PageSequence(c, es[..|es| - 1]);
      var e := es[|es| - 1];
      if IsPageFile(e) then prev + [PageAt(c, e.name, |prev| + 1)] else prev
  }

  /** Page k (from 0) is the k-th page file of the listing, numbered k + 1. */
  lemma {:induction false} PageSequenceNumbering(c: Chapter, es: seq<Entry>)
    ensures |PageSequence(c, es)| == |PageFiles(es)|
    ensures forall k :: 0 <= k < |PageFiles(es)| ==>
      PageSequence(c, es)[k] == PageAt(c, PageFiles(es)[k].name, k + 1)
    decreases |es|
  {
    if es != [] {
      var init, last := es[..|es| - 1], es[|es| - 1];
      PageSequenceNumbering(c, init);
      if IsPageFile(last) {
        NumberingStep(c, PageSequence(c, init), PageFiles(init), last);
      }
    }
  }

  /** Appending the next page file and its page keeps page k paired with file k, numbered k + 1. */
  lemma NumberingStep(c: Chapter, pages: seq<Page>, files: seq<Entry>, e: Entry)
    requires |pages| == |files|
    requires forall k :: 0 <= k < |files| ==> pages[k] == PageAt(c, files[k].name, k + 1)
    ensures forall k :: 0 <= k < |files| + 1 ==>
      (pages + [PageAt(c, e.name, |pages| + 1)])[k] == PageAt(c, (files + [e])[k].name, k + 1)
  {
  }

  /** Pages ordered by number, as `sort.Slice` with `Number <` leaves them. */
  predicate SortedByNumber(ps: seq<Page>)
  {
    forall i, j :: 0 <= i < j < |ps| ==> ps[i].number <= ps[j].number
  }

  /** Inserts `p` into sorted `ps` after every page whose number is not greater. */
  function InsertByNumber(ps: seq<Page>, p: Page): (r: seq<Page>)
    requires SortedByNumber(ps)
    ensures SortedByNumber(r)
    ensures multiset(r) == multiset(ps) + multiset{p}
  {
    if ps == [] || ps[|ps| - 1].number <= p.number then ps + [p]
    else
      var last := ps[|ps| - 1];
      var init := ps[..|ps| - 1];
      assert ps == init + [last];
      var q := InsertByNumber(init, p);
      assert forall i :: 0 <= i < |init| ==> init[i] == ps[i];
      BoundCarries(q, init, p, last.number);
      AppendKeepsSorted(q, last);
      q + [last]
  }

  /** A bound on the numbers of `init` and of `p` bounds every page of a rearrangement of both. */
  lemma BoundCarries(q: seq<Page>, init: seq<Page>, p: Page, bound: int)
    requires multiset(q) == multiset(init) + multiset{p}
    requires forall i :: 0 <= i < |init| ==> init[i].number <= bound
    requires p.number <= bound
    ensures forall i :: 0 <= i < |q| ==> q[i].number <= bound
  {
    forall i | 0 <= i < |q| ensures q[i].number <= bound {
      assert q[i] in multiset(init) + multiset{p};
      if q[i] != p {
        assert q[i] in init;
      }
    }
  }

  /** Appending a page numbered at least as high as every page keeps the order. */
  lemma AppendKeepsSorted(ps: seq<Page>, p: Page)
    requires SortedByNumber(ps)
    requires forall i :: 0 <= i < |ps| ==> ps[i].number <= p.number
    ensures SortedByNumber(ps + [p])
  {
  }

  /** `sort.Slice(pages, Number <)`: the same pages, ordered by number. */
  function SortByNumber(ps: seq<Page>): (r: seq<Page>)
    ensures SortedByNumber(r)
    ensures multiset(r) == multiset(ps)
  {
    if ps == [] then []
    else
      assert ps == ps[..|ps| - 1] + [ps[|ps| - 1]];
      InsertByNumber(SortByNumber(ps[..|ps| - 1]), ps[|ps| - 1])
  }

  /** Sorting pages that are already in order leaves them where they are. */
  lemma {:induction false} SortSortedIdentity(ps: seq<Page>)
    requires SortedByNumber(ps)
    ensures SortByNumber(ps) == ps
    decreases |ps|
  {
    if ps != [] {
      var init, last := ps[..|ps| - 1], ps[|ps| - 1];
      SortedPrefix(ps);
      SortSortedIdentity(init);
      assert init + [last] == ps;
    }
  }

  /** Dropping the last page of an ordered sequence keeps it ordered, and that page is the highest. */
  lemma SortedPrefix(ps: seq<Page>)
    requires ps != [] && SortedByNumber(ps)
    ensures SortedByNumber(ps[..|ps| - 1])
    ensures |ps| == 1 || ps[|ps| - 2].number <= ps[|ps| - 1].number
  {
    var init := ps[..|ps| - 1];
    forall i, j | 0 <= i < j < |init| ensures init[i].number <= init[j].number {
      assert init[i] == ps[i] && init[j] == ps[j];
    }
  }

  /** In pages ordered by number the first has the smallest number. */
  lemma SortedFirstIsLeast(ps: seq<Page>)
    requires ps != [] && SortedByNumber(ps)
    ensures forall p :: p in ps ==> ps[0].number <= p.number
  {
  }

  /** The pages of a listing come out numbered 1, 2, ..., so they are already sorted. */
  lemma PageSequenceSorted(c: Chapter, es: seq<Entry>)
    ensures SortedByNumber(PageSequence(c, es))
  {
    PageSequenceNumbering(c, es);
  }

  /** What `GetPages` returns: an unreadable directory is ChapterNotFound, otherwise the sorted pages. */
  function ListPages(dirs: Listing, c: Chapter): Result<seq<Page>>
  {
    if c.path in dirs then Ok(SortByNumber(PageSequence(c, dirs[c.path])))
    else Err(NewChapterNotFoundError("cannot read pages for chapter of manga " + c.mangaId))
  }

  /**
   * `GetPages`: one page per page file of the chapter directory, numbered 1..n in
   * listing order (the file name plays no part), then sorted. `updated` is the
   * chapter after the call: `pageCount` becomes the number of pages on success.
   */
  method GetPages(dirs: Listing, c: Chapter) returns (r: Result<seq<Page>>, updated: Chapter)
    ensures r == ListPages(dirs, c)
    ensures r.Err? <==> c.path !in dirs
    ensures r.Err? ==> IsChapterNotFoundError(r.error) && updated == c
    ensures r.Ok? ==> r.value == PageSequence(c, dirs[c.path]) && updated == c.(pageCount := |r.value|)
  {
    if c.path !in dirs {
      return Err(NewChapterNotFoundError("cannot read pages for chapter of manga " + c.mangaId)), c;
    }
    var files := dirs[c.path];
    var pages: seq<Page> := [];
    for i := 0 to |files|
      invariant pages == PageSequence(c, files[..i])
    {
      assert files[..i + 1][..i] == files[..i];
      var file := files[i];
      if file.isDir || IsMetadataFile(file.name) {
        continue;
      }
      var stem := PageStem(file.name);
      PageStemEmpty(file.name);
      var pageNumber: int;
      match Atoi(stem) {
        case Some(n) => pageNumber := n;
        case None => pageNumber := |pages| + 1;
      }
      pages := pages + [PageAt(c, file.name, pageNumber)];
    }
    assert files[..|files|] == files;
    PageSequenceSorted(c, files);
    SortSortedIdentity(pages);
    pages := SortByNumber(pages);
    return Ok(pages), c.(pageCount := |pages|);
  }

  /** Index of the first page numbered `n`, or -1 (the search loops of `GetPageByNumber` and `getPage`). */
  method FindPage(pages: seq<Page>, n: int) returns (i: int)
    ensures -1 <= i < |pages|
    ensures i >= 0 ==> pages[i].number == n
    ensures forall j :: 0 <= j < |pages| && (i < 0 || j < i) ==> pages[j].number != n
  {
    i := 0;
    while i < |pages|
      invariant 0 <= i <= |pages|
      invariant forall j :: 0 <= j < i ==> pages[j].number != n
    {
      if pages[i].number == n {
        return;
      }
      i := i + 1;
    }
    i := -1;
  }

  /** `GetFirstPage`: the page numbered 1, built from the first page file; PageNotFound when there is none. */
  method GetFirstPage(dirs: Listing, c: Chapter) returns (r: Result<Page>, updated: Chapter)
    ensures r.Ok? <==> c.path in dirs && |PageFiles(dirs[c.path])| > 0
    ensures r.Ok? ==> r.value == PageAt(c, PageFiles(dirs[c.path])[0].name, 1) && r.value.number == 1
    ensures r.Ok? ==> forall p :: p in ListPages(dirs, c).value ==> r.value.number <= p.number
    ensures c.path !in dirs ==> r.Err? && IsChapterNotFoundError(r.error)
    ensures c.path in dirs && |PageFiles(dirs[c.path])| == 0 ==> r == Err(PageNotFoundError("chapter has no pages"))
    ensures updated == (if c.path in dirs then c.(pageCount := |PageFiles(dirs[c.path])|) else c)
  {
    var pages;
    pages, updated := GetPages(dirs, c);
    if pages.Err? {
      return Err(pages.error), updated;
    }
    PageSequenceNumbering(c, dirs[c.path]);
    if |pages.value| == 0 {
      return Err(NewPageNotFoundError("chapter has no pages")), updated;
    }
    SortedFirstIsLeast(pages.value);
    return Ok(pages.value[0]), updated;
  }

  /** `GetPageByNumber`: page n exists exactly for 1 <= n <= the number of page files. */
  method GetPageByNumber(dirs: Listing, c: Chapter, n: int) returns (r: Result<Page>, updated: Chapter)
    ensures r.Ok? <==> c.path in dirs && 1 <= n <= |PageFiles(dirs[c.path])|
    ensures r.Ok? ==> r.value == PageAt(c, PageFiles(dirs[c.path])[n - 1].name, n)
    ensures c.path !in dirs ==> r.Err? && IsChapterNotFoundError(r.error)
    ensures c.path in dirs && r.Err? ==> IsPageNotFoundError(r.error)
    ensures updated == (if c.path in dirs then c.(pageCount := |PageFiles(dirs[c.path])|) else c)
  {
    var pages;
    pages, updated := GetPages(dirs, c);
    if pages.Err? {
      return Err(pages.error), updated;
    }
    PageSequenceNumbering(c, dirs[c.path]);
    var i := FindPage(pages.value, n);
    if i < 0 {
      assert n - 1 < 0 || n - 1 >= |pages.value| || pages.value[n - 1].number != n;
      return Err(NewPageNotFoundError("page " + IntToDecimal(n) + " not found in chapter")), updated;
    }
    assert i == n - 1;
    return Ok(pages.value[i]), updated;
  }

  /** Every listed page passes `Page.Validate` when its chapter has an id. */
  lemma ListedPagesValidate(dirs: Listing, c: Chapter, k: int)
    requires c.id != "" && c.path != "" && c.path in dirs
    requires 0 <= k < |PageSequence(c, dirs[c.path])|
    ensures Pages.Validate(PageSequence(c, dirs[c.path])[k]).None?
  {
    PageSequenceNumbering(c, dirs[c.path]);
    var name := PageFiles(dirs[c.path])[k].name;
    assert Join(c.path, name) != [] by {
      if c.path != [] {
        assert Join(c.path, name)[0] == c.path[0];
      }
    }
  }
}
