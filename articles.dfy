/** Splitting a Reuters-21578 SGML file into its articles: every article is
    the text from a `<REUTERS` opening tag through a `</REUTERS>` closing
    tag, where the k-th opening tag is paired with the k-th closing tag. */
module Articles {
  import opened Python
  import opened Scan

  const OpenTag: string := "<REUTERS"
  const CloseTag: string := "</REUTERS>"

  /** Neither tag can overlap itself, so a left-to-right scan finds all of
      their occurrences. */
  lemma TagsOverlapFree()
    ensures OverlapFree(OpenTag) && OverlapFree(CloseTag)
  {
    forall k | 0 < k < |OpenTag|
      ensures OpenTag[k..] != OpenTag[..|OpenTag| - k]
    {
      assert OpenTag[k..][0] != '<';
      assert OpenTag[..|OpenTag| - k][0] == '<';
    }
    forall k | 0 < k < |CloseTag|
      ensures CloseTag[k..] != CloseTag[..|CloseTag| - k]
    {
      assert CloseTag[k..][0] != '<';
      assert CloseTag[..|CloseTag| - k][0] == '<';
    }
  }

  /** The j-th character of an occurrence of `pat` is the j-th character of
      `pat`. */
  lemma CharAt(content: string, pat: string, i: int, j: int)
    requires OccursAt(content, pat, i) && 0 <= j < |pat|
    ensures content[i + j] == pat[j]
  {
  }

  /** An opening tag and a closing tag never share a character: `<` occurs in
      each tag only as its first character, and the characters after it
      differ. */
  lemma TagsDisjoint(content: string, i: int, e: int)
    requires OccursAt(content, OpenTag, i) && OccursAt(content, CloseTag, e)
    ensures i + |OpenTag| <= e || e + |CloseTag| <= i
  {
    if i == e {
      CharAt(content, OpenTag, i, 1);
      CharAt(content, CloseTag, e, 1);
      assert false;
    } else if i < e < i + |OpenTag| {
      CharAt(content, CloseTag, e, 0);
      CharAt(content, OpenTag, i, e - i);
      assert false;
    } else if e < i < e + |CloseTag| {
      CharAt(content, OpenTag, i, 0);
      CharAt(content, CloseTag, e, i - e);
      assert false;
    }
  }

  /** The offsets of the `<REUTERS` opening tags, as the scan finds them. */
  function OpenOffsets(content: string): (r: seq<nat>)
    ensures forall k :: 0 <= k < |r| ==> OccursAt(content, OpenTag, r[k])
  {
    FindFromSound(content, OpenTag, 0);
    FindFrom(content, OpenTag, 0)
  }

  /** The offsets of the `</REUTERS>` closing tags, as the scan finds them. */
  function CloseOffsets(content: string): (r: seq<nat>)
    ensures forall k :: 0 <= k < |r| ==> OccursAt(content, CloseTag, r[k])
  {
    FindFromSound(content, CloseTag, 0);
    FindFrom(content, CloseTag, 0)
  }

  /** Each offset list holds exactly the offsets at which its tag occurs in
      `content`, in increasing order, so its length is the number of
      occurrences of the tag. */
  lemma OffsetsExact(content: string)
    ensures StrictlyIncreasing(OpenOffsets(content)) && StrictlyIncreasing(CloseOffsets(content))
    ensures forall i :: i in OpenOffsets(content) <==> OccursAt(content, OpenTag, i)
    ensures forall i :: i in CloseOffsets(content) <==> OccursAt(content, CloseTag, i)
    ensures |OpenOffsets(content)| == |Occurrences(content, OpenTag)|
    ensures |CloseOffsets(content)| == |Occurrences(content, CloseTag)|
  {
    TagsOverlapFree();
    FindAllExact(content, OpenTag);
    FindAllExact(content, CloseTag);
  }

  /** The offset lists are increasing and each of their offsets is an
      occurrence of its tag (the half of OffsetsExact most proofs need). */
  lemma OffsetsSound(content: string)
    ensures var o, c := OpenOffsets(content), CloseOffsets(content);
      && StrictlyIncreasing(o) && StrictlyIncreasing(c)
      && (forall k :: 0 <= k < |o| ==> OccursAt(content, OpenTag, o[k]))
      && (forall k :: 0 <= k < |c| ==> OccursAt(content, CloseTag, c[k]))
  {
    FindFromSound(content, OpenTag, 0);
    FindFromSound(content, CloseTag, 0);
  }

  /** The rank of an opening tag among all opening tags. */
  lemma OpenRank(content: string, t: nat) returns (m: nat)
    requires OccursAt(content, OpenTag, t)
    ensures m < |OpenOffsets(content)| && OpenOffsets(content)[m] == t
  {
    TagsOverlapFree();
    FindFromComplete(content, OpenTag, 0, t);
    var o := OpenOffsets(content);
    m :| 0 <= m < |o| && o[m] == t;
  }

  /** The rank of a closing tag among all closing tags. */
  lemma CloseRank(content: string, t: nat) returns (m: nat)
    requires OccursAt(content, CloseTag, t)
    ensures m < |CloseOffsets(content)| && CloseOffsets(content)[m] == t
  {
    TagsOverlapFree();
    FindFromComplete(content, CloseTag, 0, t);
    var c := CloseOffsets(content);
    m :| 0 <= m < |c| && c[m] == t;
  }

  /** The number of articles: one per rank-wise pair of an opening and a
      closing offset, so the surplus tags of either kind pair with nothing. */
  function PairCount(content: string): (n: nat)
    ensures n <= |OpenOffsets(content)| && n <= |CloseOffsets(content)|
    ensures n == |OpenOffsets(content)| || n == |CloseOffsets(content)|
  {
    Min(|OpenOffsets(content)|, |CloseOffsets(content)|)
  }

  /** The k-th article: the text from the k-th opening offset through the end
      of the closing tag at the k-th closing offset. */
  function ArticleAt(content: string, k: nat): (a: string)
    requires k < PairCount(content)
    ensures OpenOffsets(content)[k] + |a| <= |content|
    ensures forall j :: 0 <= j < |a| ==> a[j] == content[OpenOffsets(content)[k] + j]
  {
    Slice(content, OpenOffsets(content)[k], CloseOffsets(content)[k] + |CloseTag|)
  }

  /** Scans for both tags, pairs their offsets by rank and appends the slice
      of each pair to the result, in the order of the opening tags. */
  method ExtractArticles(content: string) returns (articles: seq<string>)
    ensures |articles| == PairCount(content)
    ensures forall k :: 0 <= k < |articles| ==> articles[k] == ArticleAt(content, k)
  {
    var starts := OpenOffsets(content);
    var ends := CloseOffsets(content);
    articles := [];
    var pairs := Zip(starts, ends);
    for i := 0 to |pairs|
      invariant |articles| == i
      invariant forall k :: 0 <= k < i ==> articles[k] == ArticleAt(content, k)
    {
      var s, e := pairs[i].0, pairs[i].1;
      var article := Slice(content, s, e + |CloseTag|);
      assert article == ArticleAt(content, i);
      articles := articles + [article];
    }
  }

  /** The number of articles is the smaller of the number of opening tags
      and the number of closing tags in `content`. */
  lemma ArticleCount(content: string)
    ensures PairCount(content) == Min(|Occurrences(content, OpenTag)|, |Occurrences(content, CloseTag)|)
  {
    OffsetsExact(content);
  }

  /** No article is produced when either tag is missing, and only then. */
  lemma NoArticlesWithoutBothTags(content: string)
    ensures PairCount(content) == 0 <==>
      (forall i :: !OccursAt(content, OpenTag, i)) || (forall i :: !OccursAt(content, CloseTag, i))
  {
    var o, c := OpenOffsets(content), CloseOffsets(content);
    OffsetsExact(content);
    if o != [] && c != [] {
      assert OccursAt(content, OpenTag, o[0]) && OccursAt(content, CloseTag, c[0]);
    }
  }

  /** The k-th article is `content[s:e + 10]` for the k-th opening offset s
      and the k-th closing offset e; the closing tag lies inside `content`,
      so the slice is never cut short, and it is empty when s is past its
      stop. */
  lemma ArticleIsSlice(content: string, k: nat)
    requires k < PairCount(content)
    ensures var s, e := OpenOffsets(content)[k], CloseOffsets(content)[k];
      && e + |CloseTag| <= |content|
      && ArticleAt(content, k) == if s <= e + |CloseTag| then content[s..e + |CloseTag|] else []
  {
    var s, e := OpenOffsets(content)[k], CloseOffsets(content)[k];
    OffsetsSound(content);
    assert OccursAt(content, CloseTag, e);
    SliceInBounds(content, s, e + |CloseTag|);
  }

  /** Every article is either a whole tagged block, beginning with the
      opening tag and ending with the closing tag, or, when its closing tag
      comes before its opening tag, the empty string. */
  lemma ArticleIsBlockOrEmpty(content: string, k: nat)
    requires k < PairCount(content)
    ensures var s, e, a := OpenOffsets(content)[k], CloseOffsets(content)[k], ArticleAt(content, k);
      && (a != [] <==> s <= e)
      && (s <= e ==> |OpenTag| + |CloseTag| <= |a| && a[..|OpenTag|] == OpenTag && a[|a| - |CloseTag|..] == CloseTag)
  {
    var s, e := OpenOffsets(content)[k], CloseOffsets(content)[k];
    ArticleIsSlice(content, k);
    OffsetsSound(content);
    TagsDisjoint(content, s, e);
    if s <= e {
      TaggedBlock(content, s, e);
    }
  }

  /** The text from an opening tag through a later closing tag begins with
      the one and ends with the other. */
  lemma TaggedBlock(content: string, s: nat, e: nat)
    requires OccursAt(content, OpenTag, s) && OccursAt(content, CloseTag, e)
    requires s + |OpenTag| <= e
    ensures var a := content[s..e + |CloseTag|];
      && |OpenTag| + |CloseTag| <= |a| && a[..|OpenTag|] == OpenTag && a[|a| - |CloseTag|..] == CloseTag
  {
    var a := content[s..e + |CloseTag|];
    forall j | 0 <= j < |OpenTag|
      ensures a[..|OpenTag|][j] == OpenTag[j]
    {
      CharAt(content, OpenTag, s, j);
    }
    forall j | 0 <= j < |CloseTag|
      ensures a[|a| - |CloseTag|..][j] == CloseTag[j]
    {
      CharAt(content, CloseTag, e, j);
    }
  }

  /** The tags of `content` alternate, beginning with an opening tag and
      ending with a closing tag: there are as many of each, and the j-th
      opening tag comes before the k-th closing tag exactly when j <= k.
      It is stated over the two offset scans; `OffsetsExact` proves that
      they hold exactly the occurrences of each tag in increasing order, so
      this says open_0 < close_0 < open_1 < close_1 < ... of the tags in
      the text itself. */
  predicate WellFormed(content: string)
  {
    var o, c := OpenOffsets(content), CloseOffsets(content);
    && |o| == |c|
    && forall j, k :: 0 <= j < |o| && 0 <= k < |c| ==> (o[j] < c[k] <==> j <= k)
  }

  /** In well-formed content, an opening tag after the k-th one lies past
      the end of the k-th closing tag. */
  lemma OpenAfterBlock(content: string, k: nat, t: nat)
    requires WellFormed(content) && k < PairCount(content)
    requires OccursAt(content, OpenTag, t) && OpenOffsets(content)[k] < t
    ensures CloseOffsets(content)[k] + |CloseTag| <= t
  {
    var o, c := OpenOffsets(content), CloseOffsets(content);
    OffsetsSound(content);
    var m := OpenRank(content, t);
    assert k < m;
    TagsDisjoint(content, t, c[k]);
  }

  /** In well-formed content, a closing tag before the k-th one lies before
      the k-th opening tag. */
  lemma CloseBeforeBlock(content: string, k: nat, t: nat)
    requires WellFormed(content) && k < PairCount(content)
    requires OccursAt(content, CloseTag, t) && t < CloseOffsets(content)[k]
    ensures t < OpenOffsets(content)[k]
  {
    var o, c := OpenOffsets(content), CloseOffsets(content);
    OffsetsSound(content);
    var m := CloseRank(content, t);
    assert m < k;
    TagsDisjoint(content, o[k], t);
  }

  /** In well-formed content the k-th article is the whole text from the
      k-th opening tag through the k-th closing tag, and the closing tag
      before it ends at or before its opening tag. */
  lemma WellFormedArticleSpan(content: string, k: nat)
    requires WellFormed(content) && k < PairCount(content)
    ensures var o, c := OpenOffsets(content), CloseOffsets(content);
      && o[k] < c[k] && c[k] + |CloseTag| <= |content|
      && ArticleAt(content, k) == content[o[k]..c[k] + |CloseTag|]
      && (0 < k ==> c[k - 1] + |CloseTag| <= o[k])
  {
    var o, c := OpenOffsets(content), CloseOffsets(content);
    OffsetsSound(content);
    ArticleIsSlice(content, k);
    TagsDisjoint(content, o[k], c[k]);
    if 0 < k {
      TagsDisjoint(content, o[k], c[k - 1]);
    }
  }

  /** In well-formed content there are as many articles as blocks, every
      article lies in `content` at the offset of its opening tag, and each
      article ends at or before the offset where the next one begins, so no
      two articles overlap. */
  lemma WellFormedArticlesDisjoint(content: string)
    requires WellFormed(content)
    ensures var o, n := OpenOffsets(content), PairCount(content);
      && n == |Occurrences(content, OpenTag)| == |Occurrences(content, CloseTag)|
      && (forall k :: 0 <= k < n ==>
            o[k] + |ArticleAt(content, k)| <= |content| &&
            ArticleAt(content, k) == content[o[k]..o[k] + |ArticleAt(content, k)|])
      && (forall k :: 0 < k < n ==> o[k - 1] + |ArticleAt(content, k - 1)| <= o[k])
  {
    var o, n := OpenOffsets(content), PairCount(content);
    OffsetsExact(content);
    forall k | 0 <= k < n
      ensures o[k] + |ArticleAt(content, k)| <= |content|
      ensures ArticleAt(content, k) == content[o[k]..o[k] + |ArticleAt(content, k)|]
    {
      WellFormedArticleSpan(content, k);
    }
    forall k | 0 < k < n
      ensures o[k - 1] + |ArticleAt(content, k - 1)| <= o[k]
    {
      WellFormedArticleSpan(content, k - 1);
      WellFormedArticleSpan(content, k);
    }
  }

  /** In well-formed content each article holds exactly one opening tag, at
      its start, and exactly one closing tag, at its end: it spans a single
      `<REUTERS ... </REUTERS>` block. */
  lemma WellFormedSingleBlock(content: string, k: nat)
    requires WellFormed(content) && k < PairCount(content)
    ensures var a := ArticleAt(content, k);
      && (forall j :: OccursAt(a, OpenTag, j) <==> j == 0)
      && (forall j :: OccursAt(a, CloseTag, j) <==> j == |a| - |CloseTag|)
  {
    BlockOpensOnce(content, k);
    BlockClosesOnce(content, k);
  }

  /** In well-formed content the k-th article holds an opening tag at its
      start and nowhere else. */
  lemma BlockOpensOnce(content: string, k: nat)
    requires WellFormed(content) && k < PairCount(content)
    ensures forall j :: OccursAt(ArticleAt(content, k), OpenTag, j) <==> j == 0
  {
    var s, e := OpenOffsets(content)[k], CloseOffsets(content)[k];
    var a := ArticleAt(content, k);
    WellFormedArticleSpan(content, k);
    TagsDisjoint(content, s, e);
    forall j
      ensures OccursAt(a, OpenTag, j) <==> j == 0
    {
      OccursInSlice(content, OpenTag, s, e + |CloseTag|, j);
      if 0 < j && OccursAt(content, OpenTag, s + j) {
        OpenAfterBlock(content, k, s + j);
      }
    }
  }

  /** In well-formed content the k-th article holds a closing tag at its
      end and nowhere else. */
  lemma BlockClosesOnce(content: string, k: nat)
    requires WellFormed(content) && k < PairCount(content)
    ensures var a := ArticleAt(content, k);
      forall j :: OccursAt(a, CloseTag, j) <==> j == |a| - |CloseTag|
  {
    var s, e := OpenOffsets(content)[k], CloseOffsets(content)[k];
    var a := ArticleAt(content, k);
    WellFormedArticleSpan(content, k);
    TagsDisjoint(content, s, e);
    forall j
      ensures OccursAt(a, CloseTag, j) <==> j == |a| - |CloseTag|
    {
      OccursInSlice(content, CloseTag, s, e + |CloseTag|, j);
      if 0 <= j && s + j < e && OccursAt(content, CloseTag, s + j) {
        CloseBeforeBlock(content, k, s + j);
      }
    }
  }
}
