/** Finding every occurrence of a literal pattern in a text, as Python's
    `re.finditer` does for a pattern without metacharacters. */
module Scan {

  /** `pat` occurs in `text` starting at offset `i`. */
  predicate OccursAt(text: string, pat: string, i: int)
  {
    0 <= i && i + |pat| <= |text| && forall j :: 0 <= j < |pat| ==> text[i + j] == pat[j]
  }

  predicate StrictlyIncreasing(xs: seq<nat>)
  {
    forall j, k :: 0 <= j < k < |xs| ==> xs[j] < xs[k]
  }

  /** No proper suffix of `pat` is also a prefix of it, so two occurrences
      of `pat` can never overlap. */
  predicate OverlapFree(pat: string)
  {
    forall k :: 0 < k < |pat| ==> pat[k..] != pat[..|pat| - k]
  }

  /** All offsets in `text` where `pat` occurs. */
  ghost function Occurrences(text: string, pat: string): set<nat>
  {
    set i: nat | i <= |text| && OccursAt(text, pat, i)
  }

  /** The start offsets of the matches `re.finditer(pat, text)` yields when
      scanning from `pos`: the regular-expression engine tries every offset
      from left to right and, after a match, resumes at the end of the match,
      so matches never overlap. */
  function FindFrom(text: string, pat: string, pos: nat): (r: seq<nat>)
    requires |pat| > 0
    ensures forall x | x in r :: pos <= x && x + |pat| <= |text|
    decreases |text| - pos
  {
    if pos + |pat| > |text| then []
    else if OccursAt(text, pat, pos) then [pos] + FindFrom(text, pat, pos + |pat|)
    else FindFrom(text, pat, pos + 1)
  }

  /** An occurrence inside a slice of `text` is an occurrence in `text`
      itself, shifted by the start of the slice, that ends within the slice. */
  lemma OccursInSlice(text: string, pat: string, lo: nat, hi: nat, j: int)
    requires lo <= hi <= |text|
    ensures OccursAt(text[lo..hi], pat, j) <==> 0 <= j && lo + j + |pat| <= hi && OccursAt(text, pat, lo + j)
  {
    if 0 <= j && lo + j + |pat| <= hi {
      forall x | 0 <= x < |pat|
        ensures text[lo..hi][j + x] == pat[x] <==> text[lo + j + x] == pat[x]
      {
      }
    }
  }

  /** The scan yields offsets at or after `pos`, in increasing order, and
      the pattern occurs at each of them. */
  lemma {:induction false} FindFromSound(text: string, pat: string, pos: nat)
    requires |pat| > 0
    ensures var r := FindFrom(text, pat, pos);
      && StrictlyIncreasing(r)
      && forall k :: 0 <= k < |r| ==> pos <= r[k] && OccursAt(text, pat, r[k])
    decreases |text| - pos
  {
    if pos + |pat| <= |text| {
      if OccursAt(text, pat, pos) {
        FindFromSound(text, pat, pos + |pat|);
      } else {
        FindFromSound(text, pat, pos + 1);
      }
    }
  }

  /** For a pattern that cannot overlap itself, the scan misses no
      occurrence. */
  lemma {:induction false} FindFromComplete(text: string, pat: string, pos: nat, i: nat)
    requires |pat| > 0 && OverlapFree(pat)
    requires pos <= i && OccursAt(text, pat, i)
    ensures i in FindFrom(text, pat, pos)
    decreases |text| - pos
  {
    if OccursAt(text, pat, pos) {
      if i != pos {
        if i < pos + |pat| {
          OverlapIsBorder(text, pat, pos, i);
          assert false;
        }
        FindFromComplete(text, pat, pos + |pat|, i);
      }
    } else {
      assert i != pos;
      FindFromComplete(text, pat, pos + 1, i);
    }
  }

  /** Two overlapping occurrences of `pat` make a proper suffix of `pat`
      equal to a prefix of it. */
  lemma OverlapIsBorder(text: string, pat: string, p: nat, i: nat)
    requires OccursAt(text, pat, p) && OccursAt(text, pat, i)
    requires p < i < p + |pat|
    ensures pat[i - p..] == pat[..|pat| - (i - p)]
  {
    var k := i - p;
    forall j | 0 <= j < |pat| - k
      ensures pat[k..][j] == pat[..|pat| - k][j]
    {
      calc {
        pat[k..][j];
        text[p..p + |pat|][k + j];
        text[i..i + |pat|][j];
        pat[..|pat| - k][j];
      }
    }
  }

  /** For an overlap-free pattern, the scan from the start of the text yields
      exactly the occurrences of the pattern, in increasing order, one per
      occurrence. */
  lemma FindAllExact(text: string, pat: string)
    requires |pat| > 0 && OverlapFree(pat)
    ensures StrictlyIncreasing(FindFrom(text, pat, 0))
    ensures forall i :: i in FindFrom(text, pat, 0) <==> OccursAt(text, pat, i)
    ensures |FindFrom(text, pat, 0)| == |Occurrences(text, pat)|
  {
    var r := FindFrom(text, pat, 0);
    FindFromSound(text, pat, 0);
    forall i | OccursAt(text, pat, i)
      ensures i in r
    {
      FindFromComplete(text, pat, 0, i);
    }
    IncreasingCard(r);
    assert Elements(r) == Occurrences(text, pat);
  }

  /** The set of elements of `xs`. */
  ghost function Elements(xs: seq<nat>): set<nat>
  {
    if xs == [] then {} else {xs[0]} + Elements(xs[1..])
  }

  /** A strictly increasing sequence has no repeated element, so it has as
      many distinct elements as it is long. */
  lemma {:induction false} IncreasingCard(xs: seq<nat>)
    requires StrictlyIncreasing(xs)
    ensures forall x :: x in Elements(xs) <==> x in xs
    ensures |Elements(xs)| == |xs|
  {
    if xs != [] {
      var t := xs[1..];
      assert StrictlyIncreasing(t) by {
        forall j, k | 0 <= j < k < |t| ensures t[j] < t[k] {
          assert t[j] == xs[j + 1] && t[k] == xs[k + 1];
        }
      }
      IncreasingCard(t);
      assert forall x :: x in xs <==> x == xs[0] || x in t;
      assert xs[0] !in t by {
        forall m | 0 <= m < |t| ensures xs[0] < t[m] {
          assert t[m] == xs[m + 1];
        }
      }
    }
  }
}
