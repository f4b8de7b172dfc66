# Reuters-21578 article splitter

This project models `extract_articles` from `app.py`, the part of the
Smart Document Retrieval System that cuts a Reuters-21578 SGML dump into
articles. The function:

- collects the start offset of every `<REUTERS` in the text;
- collects the start offset of every `</REUTERS>`;
- pairs the two offset lists by rank with Python's `zip`;
- for each pair `(s, e)`, appends `content[s:e + len('</REUTERS>')]` to the
  result, in order.

The model has three modules:

- `Python` (python.dfy) gives the two built-ins the function relies on.
  `Slice` is Python string slicing for non-negative bounds, with both bounds
  clamped to the length and an empty result when the start is at or past
  the stop. `Zip` is `zip`, which stops at the shorter list.
- `Scan` (scan.dfy) models `re.finditer` on a literal pattern as a
  left-to-right scan. The scan resumes after the end of each match, so
  matches never overlap (`FindFrom`). The module proves that this scan
  yields increasing offsets, each one an occurrence. For a pattern that
  cannot overlap itself, it also proves that the scan finds every
  occurrence.
- `Articles` (articles.dfy) has the two tags and the two offset scans. It
  also has `ExtractArticles`, a method whose loop walks the zipped offsets
  and appends one slice per pair, as the source does. The lemmas about the
  result are in this module too. For *well-formed* input, the tags
  alternate: open, close, open, close, and so on. For such input the lemmas
  show that the articles are exactly the `<REUTERS … </REUTERS>` blocks and
  that no two of them overlap.

Strings are `seq<char>`. A Python `str` is a sequence of code points, so no
encoding is modelled. A Dafny `char` is a Unicode scalar value, so a Python
string holding a lone surrogate (such as `'\ud800'`) has no counterpart here;
this does not affect matching the ASCII tags.

The repository's query path is a stub: `process_a_query`
(API/query_processing.py) only opens an Elasticsearch connection and returns
nothing, and the `/search/` route returns a constant object whose `titles`
field is a fixed list. There is no query logic to model, so it is not part
of this model.

## Model

| member | source | states |
|---|---|---|
| `Python.Slice` | app.py:40 | `content[start:stop]`: the result has length `min(stop, len) - start` when `start < stop` and `start < len`, and 0 otherwise. Its j-th character is `content[start + j]`, so it is a contiguous run of the input that never reaches past its end. |
| `Python.SliceInBounds` | app.py:40 | With the stop inside the string, a slice is the substring `s[start..stop]` when `start <= stop`. It is the empty string when the start is past the stop. |
| `Python.Zip` | app.py:39 | `zip` pairs elements of equal rank: its length is the shorter of the two lengths, so the surplus of the longer list is dropped. |
| `Scan.FindFrom` | app.py:33-34 | The left-to-right scan `re.finditer` does on a literal pattern: it tries each offset from `pos` and, after a match, resumes at the match's end. Every offset it yields is at or after `pos`, and the pattern fits in the text there. |
| `Scan.FindFromSound` | app.py:33-34 | The `finditer` scan from `pos` yields strictly increasing offsets, each at or after `pos`, and the pattern occurs at every one of them. |
| `Scan.FindFromComplete` | app.py:33-34 | For a pattern with no proper suffix equal to a prefix, the scan from `pos` yields every occurrence at or after `pos`. |
| `Scan.FindAllExact` | app.py:33-34 | For such a pattern, the scan from offset 0 yields exactly the occurrence offsets, in increasing order. Its length is the number of occurrences. |
| `Articles.TagsOverlapFree` | app.py:33-34 | Neither `<REUTERS` nor `</REUTERS>` can overlap itself, so the scan finds every tag. |
| `Articles.TagsDisjoint` | app.py:33-34 | An occurrence of `<REUTERS` and an occurrence of `</REUTERS>` never overlap. In particular, the opening pattern never matches inside a closing tag. |
| `Articles.OpenOffsets` | app.py:33 | The `reuters_start_indices` comprehension: the scan for `<REUTERS` from offset 0. The tag occurs at every offset it holds. |
| `Articles.CloseOffsets` | app.py:34 | The `reuters_end_indices` comprehension: the scan for `</REUTERS>` from offset 0. The tag occurs at every offset it holds. |
| `Articles.OffsetsExact` | app.py:33-34 | The start list holds exactly the offsets where `<REUTERS` occurs, and the end list exactly those where `</REUTERS>` occurs. Both lists are strictly increasing, and each one is as long as the number of occurrences of its tag. |
| `Articles.PairCount` | app.py:39 | The number of pairs `zip(reuters_start_indices, reuters_end_indices)` yields: it is no larger than either list and equal to one of them, the shorter. |
| `Articles.ArticleAt` | app.py:40 | The k-th article `content[s_k:e_k + 10]`: a contiguous run of `content` beginning at the k-th opening offset, ending inside `content`. |
| `Articles.ExtractArticles` | app.py:31-43 | Returns one article per zipped pair and nothing else. The k-th article is `content[s_k : e_k + 10]` for the k-th opening offset `s_k` and the k-th closing offset `e_k`, so the articles come in opening-tag order. |
| `Articles.ArticleCount` | app.py:39 | The number of articles is min(number of `<REUTERS` occurrences, number of `</REUTERS>` occurrences). |
| `Articles.NoArticlesWithoutBothTags` | app.py:39 | There are no articles if and only if one of the two tags does not occur in the input. |
| `Articles.ArticleIsSlice` | app.py:40 | The k-th closing tag ends inside `content`. The k-th article is `content[s_k..e_k + 10]` when `s_k <= e_k + 10`, and the empty string otherwise (Python slice clamping). |
| `Articles.ArticleIsBlockOrEmpty` | app.py:33-40 | The k-th article is non-empty if and only if `s_k <= e_k`. A non-empty article is at least 18 characters long, begins with `<REUTERS` and ends with `</REUTERS>`. |
| `Articles.TaggedBlock` | app.py:40 | The text from an opening tag through the end of a later closing tag begins with `<REUTERS` and ends with `</REUTERS>`. |
| `Articles.OpenAfterBlock` | app.py:39-41 | In well-formed input, an opening tag after the k-th one lies past the end of the k-th closing tag. |
| `Articles.CloseBeforeBlock` | app.py:39-41 | In well-formed input, a closing tag before the k-th one lies before the k-th opening tag. |
| `Articles.WellFormedArticleSpan` | app.py:39-41 | In well-formed input, the k-th article is the whole block from the k-th opening tag through the k-th closing tag. The previous closing tag ends at or before that opening tag. |
| `Articles.WellFormedArticlesDisjoint` | app.py:39-41 | In well-formed input, there are as many articles as blocks. Each article sits in `content` at its opening offset and ends at or before the next article begins, so consecutive articles do not overlap. |
| `Articles.WellFormedSingleBlock` | app.py:39-41 | In well-formed input, each article contains `<REUTERS` only at offset 0 and `</REUTERS>` only at its last 10 characters, so it spans exactly one block. |
| `Articles.BlockOpensOnce` | app.py:39-41 | In well-formed input, the k-th article contains `<REUTERS` at offset 0 and nowhere else. |
| `Articles.BlockClosesOnce` | app.py:39-41 | In well-formed input, the k-th article contains `</REUTERS>` in its last 10 characters and nowhere else. |

## Left out

- `extract_documents_data` and the module-level call (app.py:10-28, app.py:46-48) are not modelled. They unpack a zip archive into a hard-coded directory and read files, which is file-system I/O.
- The `print` of the closing offsets (app.py:35) is not modelled. It is output only and does not affect the result.
- The unused `datetime` and nltk imports (app.py:2-5) are not modelled.
- `re.finditer` is modelled only for a literal pattern without regular-expression metacharacters, which is how `extract_articles` uses it.
- API/query_processing.py is not part of this model. `connect_to_elasticsearch` is a network client, and the body of `process_a_query` only opens an Elasticsearch connection and returns nothing.
- API/main.py is not part of this model. It is HTTP plumbing: CORS setup and routes that return constants.
- Frontend/script.js is not part of this model. It covers DOM updates, `fetch` calls and a timer-based debounce.
