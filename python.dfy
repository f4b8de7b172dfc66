/** The two Python built-ins the article splitter leans on: slicing a string
    and pairing two lists with `zip`. */
module Python {

  function Min(a: int, b: int): int
  {
    if a <= b then a else b
  }

  /** `s[start:stop]` for non-negative bounds: both bounds are clamped to
      `len(s)`, and a start at or past the stop gives the empty string. */
  function Slice<T>(s: seq<T>, start: nat, stop: nat): (r: seq<T>)
    ensures |r| == if start < stop && start < |s| then Min(stop, |s|) - start else 0
    ensures forall j :: 0 <= j < |r| ==> start + j < |s| && r[j] == s[start + j]
  {
    var lo := Min(start, |s|);
    var hi := Min(stop, |s|);
    if lo < hi then s[lo..hi] else []
  }

  /** `zip(xs, ys)`: pairs elements of equal rank and stops at the end of the
      shorter list, so the surplus of the longer one is dropped. */
  function Zip<A, B>(xs: seq<A>, ys: seq<B>): (r: seq<(A, B)>)
    ensures |r| == Min(|xs|, |ys|)
    ensures forall k :: 0 <= k < |r| ==> r[k] == (xs[k], ys[k])
  {
    if xs == [] || ys == [] then [] else [(xs[0], ys[0])] + Zip(xs[1..], ys[1..])
  }

  /** Slicing within bounds is Dafny's subsequence; a start past the stop
      gives the empty string. */
  lemma SliceInBounds<T>(s: seq<T>, start: nat, stop: nat)
    requires stop <= |s|
    ensures start <= stop ==> Slice(s, start, stop) == s[start..stop]
    ensures start > stop ==> Slice(s, start, stop) == []
  {
    if start <= stop {
      var r := Slice(s, start, stop);
      assert |r| == stop - start;
      assert forall j :: 0 <= j < |r| ==> r[j] == s[start..stop][j];
    }
  }
}
