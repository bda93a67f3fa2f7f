/**
 * Python's slice `s[lo:hi]` for non-negative bounds: both bounds are clamped to
 * the length of `s`, and an empty sequence results when the clamped lower
 * bound is past the upper one. It never fails, which is how the tool reads a
 * short envelope or a short carrier without raising.
 */
module Slicing {

  function Min(a: int, b: int): int
  {
    if a <= b then a else b
  }

  function PySlice<T>(s: seq<T>, lo: nat, hi: nat): (r: seq<T>)
    ensures lo <= hi <= |s| ==> r == s[lo..hi]
    ensures |r| == if lo <= hi then Min(hi, |s|) - Min(lo, |s|) else 0
    ensures forall i :: 0 <= i < |r| ==> r[i] == s[lo + i]
  {
    var l := Min(lo, |s|);
    var h := Min(hi, |s|);
    if l <= h then s[l..h] else []
  }

  /** `s[:k] + s[k:] == s` for every k. */
  lemma SplitJoin<T>(s: seq<T>, k: nat)
    ensures PySlice(s, 0, k) + PySlice(s, k, |s|) == s
  {
  }
}
