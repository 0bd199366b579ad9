/**
 * The pure rules inside the HTTP handlers: case-insensitive matching, slugs,
 * search, chapter lookup and adjacency, and how an update request is merged
 * into a stored series or chapter.
 */
module Routes {
  import opened Common
  import opened Errors
  import opened Strings
  import opened Paths
  import opened Disk
  import opened Pages
  import Chapters
  import Manga
  import opened Metadata

  // ---------------------------------------------------------------------------
  // Case-insensitive comparison

  /** `containsIgnoreCase`: `substr` occurs in `s` once both are lowered. */
  predicate ContainsIgnoreCase(s: string, substr: string)
  {
    Contains(ToLower(s), ToLower(substr))
  }

  /** `equalIgnoreCase`: equal once both are lowered. */
  predicate EqualIgnoreCase(s1: string, s2: string)
  {
    ToLower(s1) == ToLower(s2)
  }

  /** `substr` occurs in `s` at position `i` ignoring case. */
  predicate OccursIgnoringCaseAt(s: string, substr: string, i: int)
  {
    0 <= i <= |s| - |substr| && EqualIgnoreCase(s[i..i + |substr|], substr)
  }

  /** `containsIgnoreCase` holds exactly when some slice of `s` equals `substr` ignoring case. */
  lemma ContainsIgnoreCaseAt(s: string, substr: string)
    ensures ContainsIgnoreCase(s, substr) <==> exists i :: OccursIgnoringCaseAt(s, substr, i)
  {
    ContainsAt(ToLower(s), ToLower(substr));
    if ContainsIgnoreCase(s, substr) {
      var i :| OccursAt(ToLower(s), ToLower(substr), i);
      LoweredOccurrence(s, substr, i);
    }
    if exists i :: OccursIgnoringCaseAt(s, substr, i) {
      var i :| OccursIgnoringCaseAt(s, substr, i);
      LoweredOccurrence(s, substr, i);
    }
  }

  /** An occurrence in the lowered text is an occurrence ignoring case, at the same position. */
  lemma LoweredOccurrence(s: string, substr: string, i: int)
    ensures OccursAt(ToLower(s), ToLower(substr), i) <==> OccursIgnoringCaseAt(s, substr, i)
  {
    if 0 <= i <= |s| - |substr| {
      ToLowerSlice(s, i, i + |substr|);
    }
  }

  /** `equalIgnoreCase` is an equivalence, and equal texts contain each other. */
  lemma EqualIgnoreCaseEquivalence(a: string, b: string, c: string)
    ensures EqualIgnoreCase(a, a)
    ensures EqualIgnoreCase(a, b) ==> EqualIgnoreCase(b, a)
    ensures EqualIgnoreCase(a, b) && EqualIgnoreCase(b, c) ==> EqualIgnoreCase(a, c)
    ensures EqualIgnoreCase(a, b) ==> ContainsIgnoreCase(a, b)
  {
    assert HasPrefix(ToLower(a), ToLower(a));
  }

  /** Case never matters: lowering either side first changes nothing. */
  lemma ContainsIgnoreCaseLowered(s: string, substr: string)
    ensures ContainsIgnoreCase(ToLower(s), substr) == ContainsIgnoreCase(s, substr)
    ensures ContainsIgnoreCase(s, ToLower(substr)) == ContainsIgnoreCase(s, substr)
  {
    ToLowerIdempotent(s);
    ToLowerIdempotent(substr);
  }

  // ---------------------------------------------------------------------------
  // Slugs

  /** A character the slug pattern `[^a-z0-9\-]` keeps. */
  predicate IsSlugChar(c: char)
  {
    'a' <= c <= 'z' || '0' <= c <= '9' || c == '-'
  }

  predicate AllSlugChars(s: string)
  {
    forall i :: 0 <= i < |s| ==> IsSlugChar(s[i])
  }

  /** No two '-' side by side: `strings.Contains(s, "--")` is false. */
  predicate NoDoubleDash(s: string)
  {
    forall i :: 0 <= i < |s| - 1 ==> !(s[i] == '-' && s[i + 1] == '-')
  }

  /** The regular-expression replacement that deletes every character outside `a-z0-9-`. */
  function KeepSlugChars(s: string): (r: string)
    ensures |r| <= |s| && AllSlugChars(r)
    ensures AllSlugChars(s) ==> r == s
  {
    if s == [] then []
    else (if IsSlugChar(s[0]) then [s[0]] else []) + KeepSlugChars(s[1..])
  }

  /** The characters of `s` other than '-', in order. */
  function Undashed(s: string): (r: string)
    ensures |r| <= |s|
    ensures forall i :: 0 <= i < |r| ==> r[i] != '-' && r[i] in s
  {
    if s == [] then []
    else (if s[0] == '-' then [] else [s[0]]) + Undashed(s[1..])
  }

  /**
   * Every run of '-' shortened to a single '-': only dashes are dropped, every other
   * character stays in its order, and a run of dashes keeps one of them.
   */
  function Collapse(s: string): (r: string)
    ensures |r| <= |s| && NoDoubleDash(r)
    ensures s != [] ==> r != [] && r[0] == s[0]
    ensures forall i :: 0 <= i < |r| ==> r[i] in s
    ensures Undashed(r) == Undashed(s)
    ensures ('-' in r) <==> ('-' in s)
    ensures AllSlugChars(s) ==> AllSlugChars(r)
  {
    if s == [] then []
    else if |s| >= 2 && s[0] == '-' && s[1] == '-' then Collapse(s[1..])
    else [s[0]] + Collapse(s[1..])
  }

  /** What `createSlug` returns. */
  function Slug(s: string): string
  {
    Trim(Collapse(KeepSlugChars(ReplaceAll(ToLower(s), " ", "-"))), '-')
  }

  /** `Contains(s, "--")` is the negation of `NoDoubleDash`. */
  lemma DoubleDash(s: string)
    ensures Contains(s, "--") <==> !NoDoubleDash(s)
  {
    ContainsAt(s, "--");
    if !NoDoubleDash(s) {
      var i :| 0 <= i < |s| - 1 && s[i] == '-' && s[i + 1] == '-';
      assert s[i..i + 2] == "--";
      assert OccursAt(s, "--", i);
    }
    if Contains(s, "--") {
      var i :| OccursAt(s, "--", i);
      assert s[i] == s[i..i + 2][0] && s[i + 1] == s[i..i + 2][1];
    }
  }

  /** Text without "--" is left as it is by `Collapse`. */
  lemma {:induction false} CollapseFixed(s: string)
    requires NoDoubleDash(s)
    ensures Collapse(s) == s
    decreases |s|
  {
    if s != [] {
      CollapseFixed(s[1..]);
    }
  }

  /** One `ReplaceAll(s, "--", "-")` keeps the first character being '-' or not. */
  lemma {:induction false} HalveDashesFront(s: string)
    ensures (ReplaceAll(s, "--", "-") != [] && ReplaceAll(s, "--", "-")[0] == '-') <==> (s != [] && s[0] == '-')
    ensures ReplaceAll(s, "--", "-") == [] <==> s == []
  {
  }

  /** One `ReplaceAll(s, "--", "-")` does not change what `Collapse` makes of the text. */
  lemma {:induction false} HalveDashesCollapse(s: string)
    ensures Collapse(ReplaceAll(s, "--", "-")) == Collapse(s)
    decreases |s|
  {
    if HasPrefix(s, "--") {
      HalveDashesCollapse(s[2..]);
      HalveDoubleStep(s);
    } else if s != [] {
      HalveDashesCollapse(s[1..]);
      HalveSingleStep(s);
    }
  }

  /** The step at a leading "--": it becomes one '-', which `Collapse` merges either way. */
  lemma HalveDoubleStep(s: string)
    requires HasPrefix(s, "--")
    requires Collapse(ReplaceAll(s[2..], "--", "-")) == Collapse(s[2..])
    ensures Collapse(ReplaceAll(s, "--", "-")) == Collapse(s)
  {
    var t := s[2..];
    var rt := ReplaceAll(t, "--", "-");
    calc {
      Collapse(ReplaceAll(s, "--", "-"));
      { assert ReplaceAll(s, "--", "-") == ['-'] + rt; }
      Collapse(['-'] + rt);
      { CollapseCons('-', rt); CollapseCons('-', t); HalveDashesFront(t); }
      Collapse(['-'] + t);
      { CollapseCons('-', ['-'] + t); }
      Collapse(['-'] + (['-'] + t));
      { DashDashSplit(s); }
      Collapse(s);
    }
  }

  /** A text that starts with "--" is '-', then '-', then the rest. */
  lemma DashDashSplit(s: string)
    requires HasPrefix(s, "--")
    ensures s == ['-'] + (['-'] + s[2..])
  {
    assert s[0] == s[..2][0] == '-' && s[1] == s[..2][1] == '-';
    assert s[1..] == [s[1]] + s[2..];
    assert s == [s[0]] + s[1..];
  }

  /** The step at any other first character: it is kept on both sides. */
  lemma HalveSingleStep(s: string)
    requires s != [] && !HasPrefix(s, "--")
    requires Collapse(ReplaceAll(s[1..], "--", "-")) == Collapse(s[1..])
    ensures Collapse(ReplaceAll(s, "--", "-")) == Collapse(s)
  {
    var t := s[1..];
    var rt := ReplaceAll(t, "--", "-");
    calc {
      Collapse(ReplaceAll(s, "--", "-"));
      { assert ReplaceAll(s, "--", "-") == [s[0]] + rt; }
      Collapse([s[0]] + rt);
      { CollapseCons(s[0], rt); CollapseCons(s[0], t); HalveDashesFront(t); }
      Collapse([s[0]] + t);
      { assert s == [s[0]] + t; }
      Collapse(s);
    }
  }

  /** `Collapse` on a text that starts with `c`: a '-' before another '-' is dropped, anything else kept. */
  lemma CollapseCons(c: char, u: string)
    ensures Collapse([c] + u) == if c == '-' && u != [] && u[0] == '-' then Collapse(u) else [c] + Collapse(u)
  {
    assert ([c] + u)[1..] == u;
  }

  /**
   * `createSlug`: lower-case, spaces to '-', drop everything outside `a-z0-9-`,
   * halve "--" until none is left, and trim '-' from both ends.
   */
  method CreateSlug(s: string) returns (slug: string)
    ensures slug == Slug(s)
  {
    slug := ToLower(s);
    slug := ReplaceAll(slug, " ", "-");
    slug := KeepSlugChars(slug);
    ghost var kept := slug;
    while Contains(slug, "--")
      invariant Collapse(slug) == Collapse(kept)
      decreases |slug|
    {
      ReplaceAllShrinks(slug, "--", "-");
      HalveDashesCollapse(slug);
      slug := ReplaceAll(slug, "--", "-");
    }
    DoubleDash(slug);
    CollapseFixed(slug);
    slug := Trim(slug, '-');
  }

  /** A slug has only `a-z`, `0-9` and '-', no "--", and no '-' at either end. */
  lemma SlugShape(s: string)
    ensures AllSlugChars(Slug(s))
    ensures NoDoubleDash(Slug(s)) && !Contains(Slug(s), "--")
    ensures Slug(s) != [] ==> Slug(s)[0] != '-' && Slug(s)[|Slug(s)| - 1] != '-'
  {
    var k := KeepSlugChars(ReplaceAll(ToLower(s), " ", "-"));
    TrimShape(Collapse(k));
    DoubleDash(Slug(s));
  }

  /** Trimming '-' from both ends of slug text leaves slug text without '-' at either end. */
  lemma TrimShape(c: string)
    requires AllSlugChars(c) && NoDoubleDash(c)
    ensures AllSlugChars(Trim(c, '-')) && NoDoubleDash(Trim(c, '-'))
    ensures Trim(c, '-') != [] ==> Trim(c, '-')[0] != '-' && Trim(c, '-')[|Trim(c, '-')| - 1] != '-'
  {
    var lo := |c| - |TrimLeft(c, '-')|;
    TrimIsSlice(c);
    SliceShape(c, lo, lo + |Trim(c, '-')|);
    TrimEnds(c);
  }

  /** Trimming both ends keeps one contiguous slice of the text. */
  lemma TrimIsSlice(c: string)
    ensures var lo := |c| - |TrimLeft(c, '-')|; lo + |Trim(c, '-')| <= |c| && Trim(c, '-') == c[lo..lo + |Trim(c, '-')|]
  {
    var l := TrimLeft(c, '-');
    var t := TrimRight(l, '-');
    SliceOfSuffix(c, |c| - |l|, |t|);
  }

  lemma SliceOfSuffix(c: string, lo: int, n: int)
    requires 0 <= lo <= |c| && 0 <= n <= |c| - lo
    ensures c[lo..][..n] == c[lo..lo + n]
  {
  }

  /** What is left after trimming neither starts nor ends with '-'. */
  lemma TrimEnds(c: string)
    ensures Trim(c, '-') != [] ==> Trim(c, '-')[0] != '-' && Trim(c, '-')[|Trim(c, '-')| - 1] != '-'
  {
    var l := TrimLeft(c, '-');
    var t := TrimRight(l, '-');
    if t != [] {
      assert t[0] == l[0];
    }
  }

  /** Any slice of slug text without "--" is again slug text without "--". */
  lemma SliceShape(c: string, lo: int, hi: int)
    requires AllSlugChars(c) && NoDoubleDash(c) && 0 <= lo <= hi <= |c|
    ensures AllSlugChars(c[lo..hi]) && NoDoubleDash(c[lo..hi])
  {
    var t := c[lo..hi];
    assert forall i :: 0 <= i < |t| ==> t[i] == c[lo + i];
  }

  /** A slug is its own slug. */
  lemma SlugIdempotent(s: string)
    ensures Slug(Slug(s)) == Slug(s)
  {
    SlugShape(s);
    SlugOfShaped(Slug(s));
  }

  /** Slug text with no "--" and no '-' at either end is its own slug. */
  lemma SlugOfShaped(t: string)
    requires AllSlugChars(t) && NoDoubleDash(t)
    requires t != [] ==> t[0] != '-' && t[|t| - 1] != '-'
    ensures Slug(t) == t
  {
    ToLowerFixed(t);
    assert ' ' !in t by {
      assert forall i :: 0 <= i < |t| ==> t[i] != ' ';
    }
    ReplaceAllAbsent(t, " ", "-");
    CollapseFixed(t);
  }

  /** "One Piece!" becomes "one-piece". */
  lemma SlugExample()
    ensures Slug("One Piece!") == "one-piece"
  {
    SlugExampleLower();
    SlugExampleDashes();
    SlugExampleKept();
    SlugExampleTail();
  }

  lemma SlugExampleLower()
    ensures ToLower("One Piece!") == "one piece!"
  {
    LowerEach("One Piece!", "one piece!");
  }

  /** Lowering agrees with a text that matches it character by character. */
  lemma LowerEach(s: string, w: string)
    requires |s| == |w| && forall i :: 0 <= i < |s| ==> LowerChar(s[i]) == w[i]
    ensures ToLower(s) == w
  {
  }

  lemma SlugExampleTail()
    ensures Trim(Collapse("one-piece"), '-') == "one-piece"
  {
    var w := "one-piece";
    assert NoDoubleDash(w) by {
      assert forall i :: 0 <= i < |w| && i != 3 ==> w[i] != '-';
    }
    CollapseFixed(w);
    assert w[0] != '-' && w[|w| - 1] != '-';
    assert TrimLeft(w, '-') == w;
    assert TrimRight(w, '-') == w;
  }

  lemma SlugExampleDashes()
    ensures ReplaceAll("one piece!", " ", "-") == "one-piece!"
  {
    ReplacedEach("one piece!", ' ', '-', "one-piece!");
  }

  /** Replacing one character by another gives the text that matches it position by position. */
  lemma ReplacedEach(s: string, a: char, b: char, w: string)
    requires |w| == |s| && forall i :: 0 <= i < |s| ==> w[i] == (if s[i] == a then b else s[i])
    ensures ReplaceAll(s, [a], [b]) == w
  {
    ReplaceAllChar(s, a, b);
  }

  lemma SlugExampleKept()
    ensures KeepSlugChars("one-piece!") == "one-piece"
  {
    assert AllSlugChars("one-piece");
    assert "one-piece" + ['!'] == "one-piece!";
    KeepDropsLast("one-piece", '!');
  }

  /** Text already made of slug characters loses only a final character outside them. */
  lemma KeepDropsLast(w: string, c: char)
    requires AllSlugChars(w) && !IsSlugChar(c)
    ensures KeepSlugChars(w + [c]) == w
  {
    KeepSlugCharsAppend(w, [c]);
    assert [c][1..] == [];
  }

  /** Deleting characters works piecewise. */
  lemma {:induction false} KeepSlugCharsAppend(a: string, b: string)
    ensures KeepSlugChars(a + b) == KeepSlugChars(a) + KeepSlugChars(b)
    decreases |a|
  {
    if a != [] {
      assert (a + b)[0] == a[0] && (a + b)[1..] == a[1..] + b;
      KeepSlugCharsAppend(a[1..], b);
      var h := if IsSlugChar(a[0]) then [a[0]] else [];
      assert KeepSlugChars(a + b) == h + KeepSlugChars(a[1..] + b);
      assert KeepSlugChars(a) == h + KeepSlugChars(a[1..]);
    } else {
      assert a + b == b;
    }
  }

  // ---------------------------------------------------------------------------
  // Search

  /** The query rule: an empty query, or the title, description or some alternative title contains it. */
  predicate MatchesQuery(m: MangaSeries, query: string)
  {
    || query == ""
    || ContainsIgnoreCase(m.title, query)
    || ContainsIgnoreCase(m.description, query)
    || exists k :: 0 <= k < |m.altTitles| && ContainsIgnoreCase(m.altTitles[k], query)
  }

  /** The genre rule: an empty genre, or some genre equals it ignoring case. */
  predicate MatchesGenre(m: MangaSeries, genre: string)
  {
    genre == "" || exists k :: 0 <= k < |m.genres| && EqualIgnoreCase(m.genres[k], genre)
  }

  function SearchEntry(query: string, genre: string, m: MangaSeries): Option<MangaSeries>
  {
    if MatchesQuery(m, query) && MatchesGenre(m, genre) then Some(m) else None
  }

  function SearchEntryOf(query: string, genre: string): MangaSeries -> Option<MangaSeries>
  {
    m => SearchEntry(query, genre, m)
  }

  /** The series a search returns, in scan order. */
  function SearchResults(mangas: seq<MangaSeries>, query: string, genre: string): seq<MangaSeries>
  {
    FilterMap(mangas, SearchEntryOf(query, genre))
  }

  /** The search loop of `searchManga`. */
  method SearchManga(mangas: seq<MangaSeries>, query: string, genre: string) returns (results: seq<MangaSeries>)
    ensures results == SearchResults(mangas, query, genre)
  {
    results := [];
    for i := 0 to |mangas|
      invariant results == SearchResults(mangas[..i], query, genre)
    {
      var manga := mangas[i];
      SearchStep(mangas, i, query, genre);
      if query != "" {
        if !ContainsIgnoreCase(manga.title, query) && !ContainsIgnoreCase(manga.description, query) {
          var foundAlt := AnyContains(manga.altTitles, query);
          if !foundAlt {
            continue;
          }
        }
      }
      if genre != "" {
        var foundGenre := AnyEquals(manga.genres, genre);
        if !foundGenre {
          continue;
        }
      }
      results := results + [manga];
    }
    assert mangas[..|mangas|] == mangas;
  }

  /** One more scanned series adds itself to the results exactly when it passes both rules. */
  lemma SearchStep(mangas: seq<MangaSeries>, i: int, query: string, genre: string)
    requires 0 <= i < |mangas|
    ensures SearchResults(mangas[..i + 1], query, genre) ==
      SearchResults(mangas[..i], query, genre) +
      (if MatchesQuery(mangas[i], query) && MatchesGenre(mangas[i], genre) then [mangas[i]] else [])
  {
    assert mangas[..i + 1][..i] == mangas[..i];
  }

  /** The alternative-title loop: does any title contain the query? */
  method AnyContains(titles: seq<string>, query: string) returns (found: bool)
    ensures found <==> exists k :: 0 <= k < |titles| && ContainsIgnoreCase(titles[k], query)
  {
    found := false;
    for j := 0 to |titles|
      invariant forall k :: 0 <= k < j ==> !ContainsIgnoreCase(titles[k], query)
    {
      if ContainsIgnoreCase(titles[j], query) {
        found := true;
        break;
      }
    }
  }

  /** The genre loop: does any genre equal the requested one? */
  method AnyEquals(genres: seq<string>, genre: string) returns (found: bool)
    ensures found <==> exists k :: 0 <= k < |genres| && EqualIgnoreCase(genres[k], genre)
  {
    found := false;
    for j := 0 to |genres|
      invariant forall k :: 0 <= k < j ==> !EqualIgnoreCase(genres[k], genre)
    {
      if EqualIgnoreCase(genres[j], genre) {
        found := true;
        break;
      }
    }
  }

  /** A series is found exactly when it was scanned and satisfies both rules. */
  lemma SearchMembers(mangas: seq<MangaSeries>, query: string, genre: string, m: MangaSeries)
    ensures m in SearchResults(mangas, query, genre) <==> m in mangas && MatchesQuery(m, query) && MatchesGenre(m, genre)
  {
    FilterMapMembership(mangas, SearchEntryOf(query, genre), m);
    if m in mangas && MatchesQuery(m, query) && MatchesGenre(m, genre) {
      var k :| 0 <= k < |mangas| && mangas[k] == m;
      assert SearchEntryOf(query, genre)(mangas[k]) == Some(m);
    }
  }

  /** Results keep scan order: searching a concatenation searches each part in turn. */
  lemma SearchOrder(front: seq<MangaSeries>, back: seq<MangaSeries>, query: string, genre: string)
    ensures SearchResults(front + back, query, genre) == SearchResults(front, query, genre) + SearchResults(back, query, genre)
  {
    FilterMapAppend(front, back, SearchEntryOf(query, genre));
  }

  /** With neither a query nor a genre every scanned series is returned. */
  lemma {:induction false} SearchEverything(mangas: seq<MangaSeries>)
    ensures SearchResults(mangas, "", "") == mangas
    decreases |mangas|
  {
    if mangas != [] {
      SearchEverything(mangas[..|mangas| - 1]);
    }
  }

  // ---------------------------------------------------------------------------
  // Chapter lookup and adjacency

  /** Whether a chapter carries the number `n`. */
  function HasNumber(n: real): Chapter -> bool
  {
    (c: Chapter) => c.number == n
  }

  /** No two chapters of the list share a number. */
  predicate DistinctNumbers(chapters: seq<Chapter>)
  {
    forall i, j :: 0 <= i < j < |chapters| ==> chapters[i].number != chapters[j].number
  }

  /** The chapter loop of the chapter and page handlers: the first chapter with that number, or -1. */
  method FindChapter(chapters: seq<Chapter>, number: real) returns (i: int)
    ensures -1 <= i < |chapters|
    ensures i >= 0 ==> chapters[i].number == number
    ensures forall j :: 0 <= j < |chapters| && (i < 0 || j < i) ==> chapters[j].number != number
    ensures i == FirstIndex(chapters, HasNumber(number))
  {
    i := 0;
    while i < |chapters|
      invariant 0 <= i <= |chapters|
      invariant forall j :: 0 <= j < i ==> chapters[j].number != number
    {
      if chapters[i].number == number {
        FirstIndexAt(chapters, HasNumber(number), i);
        return;
      }
      i := i + 1;
    }
    FirstIndexNone(chapters, HasNumber(number));
    i := -1;
  }

  /** `nextChapter` of the page handler: the following chapter in scan order, from the last page on. */
  function NextChapter(pageNumber: int, pageCount: int, chapterIndex: int, chapters: seq<Chapter>): (r: Option<real>)
    requires 0 <= chapterIndex < |chapters|
    ensures r.Some? <==> pageNumber >= pageCount && chapterIndex + 1 < |chapters|
    ensures r.Some? ==> r.value == chapters[chapterIndex + 1].number
  {
    if pageNumber >= pageCount && chapterIndex < |chapters| - 1 then Some(chapters[chapterIndex + 1].number)
    else None
  }

  /** `prevChapter` of the page handler: the preceding chapter in scan order, on page 1 only. */
  function PrevChapter(pageNumber: int, chapterIndex: int, chapters: seq<Chapter>): (r: Option<real>)
    requires 0 <= chapterIndex < |chapters|
    ensures r.Some? <==> pageNumber == 1 && chapterIndex > 0
    ensures r.Some? ==> r.value == chapters[chapterIndex - 1].number
  {
    if pageNumber == 1 && chapterIndex > 0 then Some(chapters[chapterIndex - 1].number) else None
  }

  /**
   * Following `nextChapter` and opening that chapter's first page offers the chapter
   * just left as `prevChapter`, when chapter numbers are distinct: the lookup by the
   * offered number lands on the following chapter.
   */
  lemma NextThenPrev(pageNumber: int, pageCount: int, chapterIndex: int, chapters: seq<Chapter>)
    requires 0 <= chapterIndex < |chapters| && DistinctNumbers(chapters)
    requires NextChapter(pageNumber, pageCount, chapterIndex, chapters).Some?
    ensures var j := FirstIndex(chapters, HasNumber(NextChapter(pageNumber, pageCount, chapterIndex, chapters).value));
      j == chapterIndex + 1 && PrevChapter(1, j, chapters) == Some(chapters[chapterIndex].number)
  {
    var n := NextChapter(pageNumber, pageCount, chapterIndex, chapters).value;
    assert HasNumber(n)(chapters[chapterIndex + 1]);
    forall k | 0 <= k < chapterIndex + 1
      ensures !HasNumber(n)(chapters[k])
    {
      assert chapters[k].number != chapters[chapterIndex + 1].number;
    }
    FirstIndexAt(chapters, HasNumber(n), chapterIndex + 1);
  }

  /**
   * With a repeated number the links do not pair up: from the chapter numbered 2 in
   * [1, 2, 1], `nextChapter` offers 1, whose lookup lands on the first chapter,
   * where no `prevChapter` is offered.
   */
  lemma NextWithRepeatedNumber(chapters: seq<Chapter>)
    requires |chapters| == 3
    requires chapters[0].number == 1.0 && chapters[1].number == 2.0 && chapters[2].number == 1.0
    ensures NextChapter(5, 5, 1, chapters) == Some(1.0)
    ensures FirstIndex(chapters, HasNumber(1.0)) == 0
    ensures PrevChapter(1, 0, chapters).None?
  {
    FirstIndexAt(chapters, HasNumber(1.0), 0);
  }

  /**
   * On a listed chapter, whose pages are numbered 1..n, `nextChapter` is offered on the
   * last page only, and both links together only on a chapter with a single page.
   */
  lemma AdjacencyOnListedPages(dirs: Listing, c: Chapter, k: int, chapterIndex: int, chapters: seq<Chapter>)
    requires Chapters.ListPages(dirs, c).Ok?
    requires 0 <= k < |Chapters.ListPages(dirs, c).value|
    requires 0 <= chapterIndex < |chapters|
    ensures var pages := Chapters.ListPages(dirs, c).value;
      && (NextChapter(pages[k].number, |pages|, chapterIndex, chapters).Some? <==>
            k == |pages| - 1 && chapterIndex + 1 < |chapters|)
      && (PrevChapter(pages[k].number, chapterIndex, chapters).Some? <==> k == 0 && chapterIndex > 0)
      && ((NextChapter(pages[k].number, |pages|, chapterIndex, chapters).Some? &&
           PrevChapter(pages[k].number, chapterIndex, chapters).Some?) ==> |pages| == 1)
  {
    var es := dirs[c.path];
    Chapters.PageSequenceSorted(c, es);
    Chapters.SortSortedIdentity(Chapters.PageSequence(c, es));
    Chapters.PageSequenceNumbering(c, es);
    assert Chapters.ListPages(dirs, c).value[k].number == k + 1;
  }

  // ---------------------------------------------------------------------------
  // Update merges

  /** The body of an `updateManga` request. */
  datatype MangaUpdate = MangaUpdate(
    title: string,
    description: string,
    author: string,
    artist: string,
    genres: seq<string>,
    status: string)

  /** `updateManga`'s merge: a field is replaced only by a non-empty request value. */
  function ApplyMangaUpdate(m: MangaSeries, u: MangaUpdate): (r: MangaSeries)
    ensures r.title == (if u.title != "" then u.title else m.title)
    ensures r.description == (if u.description != "" then u.description else m.description)
    ensures r.author == (if u.author != "" then u.author else m.author)
    ensures r.artist == (if u.artist != "" then u.artist else m.artist)
    ensures r.genres == (if |u.genres| > 0 then u.genres else m.genres)
    ensures r.status == (if u.status != "" then u.status else m.status)
    ensures r.(title := m.title, description := m.description, author := m.author, artist := m.artist,
               genres := m.genres, status := m.status) == m
  {
    m.(title := if u.title != "" then u.title else m.title,
       description := if u.description != "" then u.description else m.description,
       author := if u.author != "" then u.author else m.author,
       artist := if u.artist != "" then u.artist else m.artist,
       genres := if |u.genres| > 0 then u.genres else m.genres,
       status := if u.status != "" then u.status else m.status)
  }

  /** Applying the same update twice is applying it once; an empty request changes nothing. */
  lemma MangaUpdateLaws(m: MangaSeries, u: MangaUpdate)
    ensures ApplyMangaUpdate(ApplyMangaUpdate(m, u), u) == ApplyMangaUpdate(m, u)
    ensures ApplyMangaUpdate(m, MangaUpdate("", "", "", "", [], "")) == m
    ensures Manga.Validate(m).None? ==> Manga.Validate(ApplyMangaUpdate(m, u)).None?
  {
  }

  /**
   * A series found under its own directory `root/id`, updated and saved to the sidecar
   * there, is what the next lookup of that id returns.
   */
  lemma UpdatedSeriesPersists(fs: FileSystem, root: string, id: string, u: MangaUpdate, now: Time)
    requires IsCleanDir(root) && IsElement(id) && Join(root, id) in fs.dirs
    requires MangaByID(fs, root, id, now).Ok? && MangaByID(fs, root, id, now).value.path == Join(root, id)
    ensures var m := ApplyMangaUpdate(MangaByID(fs, root, id, now).value, u);
      var saved := Manga.SaveToJSON(fs.dirs, fs.series, m, Join(m.path, MetadataFileName));
      && saved.Ok?
      && MangaByID(fs.(series := saved.value), root, id, now) == Ok(m)
  {
    var m := ApplyMangaUpdate(MangaByID(fs, root, id, now).value, u);
    JoinClean(root, id);
    Manga.SaveThenLoadInPlace(fs.dirs, fs.series, m);
  }

  /** The body of an `updateChapter` request. */
  datatype ChapterUpdate = ChapterUpdate(title: string, volume: int, special: bool)

  /** `updateChapter`'s merge: the title only when non-empty, the volume and the special flag always. */
  function ApplyChapterUpdate(c: Chapter, u: ChapterUpdate): (r: Chapter)
    ensures r.title == (if u.title != "" then u.title else c.title)
    ensures r.volume == u.volume && r.special == u.special
    ensures r.(title := c.title, volume := c.volume, special := c.special) == c
  {
    c.(title := if u.title != "" then u.title else c.title, volume := u.volume, special := u.special)
  }

  /**
   * Applying the same update twice is applying it once; an update with no title leaves
   * the chapter as it was only when its volume was 0 and it was not special.
   */
  lemma ChapterUpdateLaws(c: Chapter, u: ChapterUpdate)
    ensures ApplyChapterUpdate(ApplyChapterUpdate(c, u), u) == ApplyChapterUpdate(c, u)
    ensures ApplyChapterUpdate(c, ChapterUpdate("", 0, false)) == c <==> c.volume == 0 && !c.special
    ensures Chapters.Validate(c).None? ==> Chapters.Validate(ApplyChapterUpdate(c, u)).None?
  {
  }

  /** An updated chapter saved to the sidecar in its own directory loads back unchanged. */
  lemma UpdatedChapterPersists(dirs: Listing, store: Store<Chapter>, c: Chapter, u: ChapterUpdate)
    requires IsCleanDir(c.path) && c.path in dirs
    ensures var r := ApplyChapterUpdate(c, u);
      var saved := Chapters.SaveToJSON(dirs, store, r, Join(r.path, MetadataFileName));
      && saved.Ok?
      && Chapters.LoadFromJSON(saved.value, Join(r.path, MetadataFileName)) == Ok(r)
  {
    DirJoin(c.path, MetadataFileName);
  }
}
