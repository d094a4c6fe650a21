/**
 * Bounded rolling lists: `values.append(x)` followed by
 * `if len(values) > cap: values.pop(0)`, as the face service keeps `fps_values`
 * and the video service keeps `frame_times`.
 */
module Window {

  /** The last `k` entries of `s`, in order. */
  function Newest<T>(s: seq<T>, k: nat): (r: seq<T>)
    requires k <= |s|
  {
    s[|s| - k..]
  }

  function Min(a: nat, b: nat): nat {
    if a <= b then a else b
  }

  /** One append followed by at most one `pop(0)`. */
  function PushBounded<T>(s: seq<T>, x: T, cap: nat): (r: seq<T>)
  {
    var t := s + [x];
    if |t| > cap then t[1..] else t
  }

  /** Starting from a list within the bound, one push keeps it within the bound, keeps the
      newest entries in order and ends with the value just pushed. */
  lemma PushBoundedKeepsNewest<T>(s: seq<T>, x: T, cap: nat)
    requires 0 < cap && |s| <= cap
    ensures |PushBounded(s, x, cap)| == Min(|s| + 1, cap) <= cap
    ensures PushBounded(s, x, cap) == Newest(s + [x], Min(|s| + 1, cap))
    ensures PushBounded(s, x, cap)[|PushBounded(s, x, cap)| - 1] == x
  {
  }

  /** Pushing every value of `xs` in turn. */
  function PushAll<T>(s: seq<T>, xs: seq<T>, cap: nat): (r: seq<T>)
    decreases |xs|
  {
    if xs == [] then s else PushAll(PushBounded(s, xs[0], cap), xs[1..], cap)
  }

  /** Taking from the end is the same after dropping from the front what is not taken. */
  lemma NewestOfSuffix<T>(b: seq<T>, j: nat, k: nat)
    requires j <= |b| && k <= |b| - j
    ensures Newest(b[j..], k) == Newest(b, k)
  {
    assert b[j..][|b| - j - k..] == b[|b| - k..];
  }

  /** Moving the first value of `xs` over to `s`. */
  lemma AppendFirst<T>(s: seq<T>, xs: seq<T>)
    requires xs != []
    ensures s + xs == (s + [xs[0]]) + xs[1..]
  {
    assert forall k :: 0 <= k < |s| + |xs| ==> (s + xs)[k] == ((s + [xs[0]]) + xs[1..])[k];
  }

  /** Whatever the history of pushes, the list holds exactly the `cap` most recent values
      (all of them while fewer were pushed), oldest first. */
  lemma {:induction false} PushAllKeepsNewest<T>(s: seq<T>, xs: seq<T>, cap: nat)
    requires 0 < cap && |s| <= cap
    ensures |PushAll(s, xs, cap)| == Min(|s| + |xs|, cap)
    ensures PushAll(s, xs, cap) == Newest(s + xs, Min(|s| + |xs|, cap))
    decreases |xs|
  {
    if xs != [] {
      var s1 := s + [xs[0]];
      var s' := PushBounded(s, xs[0], cap);
      PushBoundedKeepsNewest(s, xs[0], cap);
      PushAllKeepsNewest(s', xs[1..], cap);
      var all := s + xs;
      var j := |s1| - |s'|;
      assert s' == s1[j..];
      AppendFirst(s, xs);
      assert s' + xs[1..] == all[j..];
      assert Min(|s'| + |xs[1..]|, cap) == Min(|s| + |xs|, cap);
      NewestOfSuffix(all, j, Min(|s| + |xs|, cap));
      assert PushAll(s, xs, cap) == PushAll(s', xs[1..], cap);
    }
  }
}
