/**
 * Go's `path/filepath` functions on '/'-separated paths (a Unix host).
 * `Base` and `Ext` follow Go exactly. Of the rewriting `filepath.Clean` applies to the
 * results of `Dir` and `Join`, only a trailing "." element given to `Join` is kept;
 * '.' and '..' elements inside a path and doubled '/' are left as they are.
 */
module Paths {
  import opened Strings

  /** Index of the last `c` in `s`, or -1 when there is none. */
  function LastIndex(s: string, c: char): (r: int)
    ensures -1 <= r < |s|
    ensures r >= 0 ==> s[r] == c
    ensures forall j :: r < j < |s| ==> s[j] != c
  {
    if s == [] then -1
    else if s[|s| - 1] == c then |s| - 1
    else LastIndex(s[..|s| - 1], c)
  }

  /** `filepath.Base`: the last element once trailing slashes are gone; "." for "", "/" for a path of slashes. */
  function Base(p: string): string
  {
    if p == [] then "."
    else
      var t := TrimRight(p, '/');
      if t == [] then "/" else t[LastIndex(t, '/') + 1..]
  }

  /** A '.' followed by characters that are neither '.' nor '/'. */
  predicate IsExtension(e: string)
  {
    e != [] && e[0] == '.' && forall i :: 0 <= i < |e| ==> e[i] != '/' && (i > 0 ==> e[i] != '.')
  }

  /** `filepath.Ext`: the suffix of the last element from its final '.', or "". */
  function Ext(p: string): (r: string)
    ensures |r| <= |p| && r == p[|p| - |r|..]
  {
    if p == [] || p[|p| - 1] == '/' then []
    else if p[|p| - 1] == '.' then ['.']
    else
      var e := Ext(p[..|p| - 1]);
      if e == [] then [] else e + [p[|p| - 1]]
  }

  /** `filepath.Dir`: everything before the last '/', trailing slashes dropped; "." without a '/'. */
  function Dir(p: string): string
  {
    var i := LastIndex(p, '/');
    if i < 0 then "."
    else
      var d := TrimRight(p[..i], '/');
      if d == [] then "/" else d
  }

  /**
   * `filepath.Join(p, n)`: an empty side is skipped, a "." element adds nothing,
   * otherwise exactly one '/' between.
   */
  function Join(p: string, n: string): string
  {
    if p == [] then n
    else if n == [] || n == "." then p
    else if p[|p| - 1] == '/' then p + n
    else p + "/" + n
  }

  /** `strings.Split(s, string(sep))`: never empty. */
  function Split(s: string, sep: char): (parts: seq<string>)
    ensures |parts| >= 1
  {
    if s == [] then [""]
    else
      var rest := Split(s[1..], sep);
      if s[0] == sep then [""] + rest else [[s[0]] + rest[0]] + rest[1..]
  }

  /** `filepath.SplitList`: splits on the list separator ':' (not on '/'); empty for "". */
  function SplitList(p: string): seq<string>
  {
    if p == [] then [] else Split(p, ':')
  }

  /** A directory path in the form `Join` and `Dir` agree on: non-empty, no trailing '/' unless it is "/". */
  predicate IsCleanDir(p: string)
  {
    p != [] && (p == "/" || p[|p| - 1] != '/')
  }

  /** A single path element: a non-empty name without '/' that is neither "." nor "..". */
  predicate IsElement(n: string)
  {
    n != [] && '/' !in n && n != "." && n != ".."
  }

  /** Joining an element to a directory and taking `Dir` gives the directory back. */
  lemma DirJoin(p: string, n: string)
    requires IsCleanDir(p) && IsElement(n)
    ensures Dir(Join(p, n)) == p
  {
    var s := Join(p, n);
    if p == "/" {
      assert s == "/" + n;
      assert LastIndex(s, '/') == 0 by {
        assert forall j :: 0 < j < |s| ==> s[j] == n[j - 1];
      }
      assert s[..0] == [];
    } else {
      assert s == p + "/" + n;
      assert s[|p|] == '/';
      forall j | |p| < j < |s| ensures s[j] != '/' {
        assert s[j] == n[j - |p| - 1];
      }
      assert LastIndex(s, '/') == |p|;
      assert s[..|p|] == p;
    }
  }

  /** Joining an element to any path and taking `Base` gives the element back. */
  lemma BaseJoin(p: string, n: string)
    requires IsElement(n)
    ensures Base(Join(p, n)) == n
  {
    var s := Join(p, n);
    assert s != [] && s[|s| - 1] == n[|n| - 1] != '/';
    assert TrimRight(s, '/') == s;
    var k := |s| - |n|;
    assert s[k..] == n;
    assert forall j :: k <= j < |s| ==> s[j] == n[j - k];
    if p != [] {
      assert s[k - 1] == '/';
      assert LastIndex(s, '/') == k - 1;
    } else {
      assert LastIndex(s, '/') == -1;
    }
  }

  /** A non-empty name without '/' is its own base name. */
  lemma BaseOfName(n: string)
    requires n != [] && '/' !in n
    ensures Base(n) == n
  {
    assert n[|n| - 1] in n;
    assert TrimRight(n, '/') == n;
    assert LastIndex(n, '/') == -1;
  }

  /** `Base` is idempotent: the base name of a base name is itself. */
  lemma BaseIdempotent(p: string)
    ensures Base(Base(p)) == Base(p)
  {
    if p != [] {
      var t := TrimRight(p, '/');
      if t != [] {
        var b := t[LastIndex(t, '/') + 1..];
        assert b[|b| - 1] == t[|t| - 1];
        assert '/' !in b by {
          forall j | 0 <= j < |b| ensures b[j] != '/' {
            assert b[j] == t[LastIndex(t, '/') + 1 + j];
          }
        }
        assert Base(p) == b;
        BaseOfName(b);
      } else {
        assert Base(p) == "/";
        assert TrimRight("/", '/') == [];
      }
    } else {
      BaseOfName(".");
    }
  }

  /** A final piece that starts with '.' and has no other '.' and no '/' is the extension of whatever it ends. */
  lemma {:induction false} ExtOfSuffix(p: string, e: string)
    requires IsExtension(e)
    ensures Ext(p + e) == e
    decreases |e|
  {
    if |e| > 1 {
      ExtensionPrefix(e);
      ExtOfSuffix(p, e[..|e| - 1]);
      ExtOfSuffixStep(p, e);
    } else {
      assert e == ['.'];
      ExtAppend(p, '.');
    }
  }

  /** Dropping the last character of an extension longer than "." leaves an extension. */
  lemma ExtensionPrefix(e: string)
    requires IsExtension(e) && |e| > 1
    ensures IsExtension(e[..|e| - 1])
  {
    var f := e[..|e| - 1];
    assert forall i :: 0 <= i < |f| ==> f[i] == e[i];
  }

  /** The inductive step: an extension that ends the text keeps doing so when grown by one character. */
  lemma ExtOfSuffixStep(p: string, e: string)
    requires IsExtension(e) && |e| > 1
    requires Ext(p + e[..|e| - 1]) == e[..|e| - 1]
    ensures Ext(p + e) == e
  {
    var f, c := e[..|e| - 1], e[|e| - 1];
    assert c != '/' && c != '.';
    calc {
      Ext(p + e);
      { assert p + e == (p + f) + [c]; }
      Ext((p + f) + [c]);
      { ExtAppend(p + f, c); }
      f + [c];
      { assert f + [c] == e; }
      e;
    }
  }

  /** One more character at the end: a '.' starts a new extension, any other character extends one. */
  lemma ExtAppend(q: string, c: char)
    requires c != '/'
    ensures c == '.' ==> Ext(q + [c]) == ['.']
    ensures c != '.' ==> Ext(q + [c]) == (if Ext(q) == [] then [] else Ext(q) + [c])
  {
    assert (q + [c])[..|q|] == q;
  }

  /** A string that starts with '.' and has no other '.' and no '/' is its own extension. */
  lemma ExtOfExtension(e: string)
    requires IsExtension(e)
    ensures Ext(e) == e
  {
    ExtOfSuffix([], e);
    assert [] + e == e;
  }

  /** A non-empty `Ext` is a '.' followed by neither '.' nor '/'. */
  lemma {:induction false} ExtIsExtension(p: string)
    ensures Ext(p) == [] || IsExtension(Ext(p))
    decreases |p|
  {
    if p != [] && p[|p| - 1] != '/' && p[|p| - 1] != '.' {
      var q, c := p[..|p| - 1], p[|p| - 1];
      ExtIsExtension(q);
      var e := Ext(q);
      if e != [] {
        assert Ext(p) == e + [c];
        assert forall i :: 0 <= i < |e| ==> (e + [c])[i] == e[i];
      }
    }
  }

  /** `Ext` is idempotent: the extension of an extension is itself. */
  lemma ExtIdempotent(p: string)
    ensures Ext(Ext(p)) == Ext(p)
  {
    ExtIsExtension(p);
    if Ext(p) != [] {
      ExtOfExtension(Ext(p));
    }
  }

  /** Splitting text that holds no separator yields the text alone. */
  lemma {:induction false} SplitWithoutSeparator(s: string, sep: char)
    requires sep !in s
    ensures Split(s, sep) == [s]
    decreases |s|
  {
    if s != [] {
      assert sep !in s[1..];
      SplitWithoutSeparator(s[1..], sep);
      assert [s[0]] + s[1..] == s;
    }
  }

  /** `Dir` never returns "" and introduces no character that the path lacks, besides '.' and '/'. */
  lemma DirCharacters(p: string)
    ensures Dir(p) != []
    ensures forall c :: c in Dir(p) ==> c in p || c == '.' || c == '/'
  {
    var i := LastIndex(p, '/');
    if i >= 0 {
      var d := TrimRight(p[..i], '/');
      assert forall c :: c in d ==> c in p[..i];
    }
  }

  /** `Base` never returns the empty string. */
  lemma BaseNonEmpty(p: string)
    ensures Base(p) != []
  {
    if p != [] {
      var t := TrimRight(p, '/');
      if t != [] {
        assert t[|t| - 1] != '/';
      }
    }
  }

  /** Joining an element to a directory gives a directory path of the same form. */
  lemma JoinClean(p: string, n: string)
    requires IsCleanDir(p) && IsElement(n)
    ensures IsCleanDir(Join(p, n))
  {
    var s := Join(p, n);
    assert s[|s| - 1] == n[|n| - 1];
    assert n[|n| - 1] in n;
  }
}
