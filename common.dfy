/** Small value types shared by every module of the model. */
module Common {

  /** An optional value (a Go value that may be nil, or a `(value, ok)` pair). */
  datatype Option<T> = None | Some(value: T)

  /** An instant as produced by `time.Now`; the model never looks inside it. */
  type Time = int

  /** Index of the first element satisfying `p`, or -1 when none does. */
  function FirstIndex<T>(s: seq<T>, p: T -> bool): (r: int)
    ensures -1 <= r < |s|
    ensures r >= 0 ==> p(s[r])
    ensures forall j :: 0 <= j < |s| && (r < 0 || j < r) ==> !p(s[j])
  {
    if s == [] then -1
    else if p(s[0]) then 0
    else
      var r := FirstIndex(s[1..], p);
      assert forall j :: 1 <= j < |s| ==> s[j] == s[1..][j - 1];
      if r < 0 then -1 else r + 1
  }

  /** The first element satisfying `p` is found at its own index. */
  lemma FirstIndexAt<T>(s: seq<T>, p: T -> bool, k: int)
    requires 0 <= k < |s| && p(s[k])
    requires forall j :: 0 <= j < k ==> !p(s[j])
    ensures FirstIndex(s, p) == k
  {
  }

  /** When no element satisfies `p`, the search reports -1. */
  lemma FirstIndexNone<T>(s: seq<T>, p: T -> bool)
    requires forall j :: 0 <= j < |s| ==> !p(s[j])
    ensures FirstIndex(s, p) == -1
  {
  }

  /** The present results of `f` over `s`, in the order of `s`. */
  function FilterMap<A, B>(s: seq<A>, f: A -> Option<B>): (r: seq<B>)
    ensures |r| <= |s|
  {
    if s == [] then []
    else
      var prev := FilterMap(s[..|s| - 1], f);
      match f(s[|s| - 1])
      case Some(y) => prev + [y]
      case None => prev
  }

  /** Filtering a concatenation filters each part and keeps them in order. */
  lemma {:induction false} FilterMapAppend<A, B>(s: seq<A>, t: seq<A>, f: A -> Option<B>)
    ensures FilterMap(s + t, f) == FilterMap(s, f) + FilterMap(t, f)
    decreases |t|
  {
    if t != [] {
      var u, x := t[..|t| - 1], t[|t| - 1];
      assert (s + t)[..|s + t| - 1] == s + u;
      FilterMapAppend(s, u, f);
    } else {
      assert s + t == s;
    }
  }

  /** Filtering with two functions that agree on every element gives the same result. */
  lemma {:induction false} FilterMapCongruent<A, B>(s: seq<A>, f: A -> Option<B>, g: A -> Option<B>)
    requires forall k :: 0 <= k < |s| ==> f(s[k]) == g(s[k])
    ensures FilterMap(s, f) == FilterMap(s, g)
    decreases |s|
  {
    if s != [] {
      FilterMapCongruent(s[..|s| - 1], f, g);
    }
  }

  /** A value is in the result exactly when `f` produces it for some element. */
  lemma {:induction false} FilterMapMembership<A, B>(s: seq<A>, f: A -> Option<B>, y: B)
    ensures y in FilterMap(s, f) <==> exists k :: 0 <= k < |s| && f(s[k]) == Some(y)
    decreases |s|
  {
    if s != [] {
      var init := s[..|s| - 1];
      FilterMapMembership(init, f, y);
      if exists k :: 0 <= k < |init| && f(init[k]) == Some(y) {
        var k :| 0 <= k < |init| && f(init[k]) == Some(y);
        assert s[k] == init[k];
      }
      if exists k :: 0 <= k < |s| && f(s[k]) == Some(y) {
        var k :| 0 <= k < |s| && f(s[k]) == Some(y);
        if k < |init| {
          assert init[k] == s[k];
        }
      }
    }
  }
}
