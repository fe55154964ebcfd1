# Transcript retrieval core, modelled in Dafny

This project models the core of a small retrieval pipeline over a video transcript.
It covers the steps that are logic rather than I/O. A transcript of `{id, text, start, end}`
entries is numbered, cleaned, cut into token windows ("chunks") that keep their entry's
timestamps, and embedded. A question is then answered by mapping the row indices a
nearest-neighbour search returns back to chunks.

Modules, one per source file:

- `VectorizeUtils` (`vectorize_utils.py`): the windowing chunker (`ChunkTranscript`, a loop
  proved against the recursive specification `ChunkAll`/`SegmentChunks`/`ChunksFrom`), the
  text extraction and row alignment of `embed_chunks` (`EmbedChunks`), and the
  index-to-chunk lookup loop of `query_index` (`QueryIndex`).
  - The tokenizer is a value holding two total functions, `encode` and `decode`.
  - The embedding model is a per-text function.
  - The index is a function from a query vector and `top_k` to the first row of indices.
- `Utils` (`utils.py`): `ExtractVideoId`, the leftmost search for `v=` or `youtu.be/` followed
  by eleven id characters, with the `ValueError` as an `Err` result. `TransformTranscript`
  numbers the entries `c1, c2, …` and sets `end = start + duration`.
- `Preprocessing` (`preprocessing.py`): `CleanText`, the five rewrites of `clean_text`, one
  function per rewrite. `CleanTranscript` is the per-entry loop of `clean_transcript`.
- `Transcript` holds the shared `Entry` record; `Outcomes` holds `Option` and `Result`.

Timestamps are `real`s. Tokens are `int`s.

On the chunk count: `chunk_transcript` starts a window at every multiple of the step
`chunk_size - overlap` below the entry's token count `N`, so an entry yields `ceil(N / step)`
chunks (`SegmentChunkCount`). With the defaults 200/50, a 160-token entry yields two chunks,
and the second repeats the last ten tokens of the first (`DefaultsSplitShortEntry`).

## Model

| member | source | states |
|---|---|---|
| `VectorizeUtils.Slice` | vectorize_utils.py:46 | No contract of its own. Python's `tokens[i:i + chunk_size]` for a non-negative start, where a negative stop counts from the end. `ChunksFromAt` and `SegmentChunkAt` state which tokens a window holds. |
| `VectorizeUtils.ChunksFrom` | vectorize_utils.py:45-53 | No contract of its own. The specification of the inner `while` loop from position `i`: one chunk per window start, each with the entry's timestamps. `ChunksFromAt` and `ChunksFromCount` state its windows and count. |
| `VectorizeUtils.SegmentChunks` | vectorize_utils.py:39-53 | No contract of its own. The chunks of one entry: the inner loop from 0 over the entry's tokens. `SegmentChunkAt`, `SegmentChunkCount`, `SegmentCoverage` and `SegmentChunkTimes` state its properties. |
| `VectorizeUtils.ChunkAll` | vectorize_utils.py:37-54 | No contract of its own. The specification `ChunkTranscript` is proved against: the entries' chunk lists concatenated in order. `ChunkAllAppend`, `ChunkAllGrouped`, `ChunkAllCount` and `ChunkOrigin` state its properties. |
| `VectorizeUtils.ChunkTranscript` | vectorize_utils.py:25-54 | The nested loops emit exactly `ChunkAll` of the transcript: each entry's windows, entry after entry. Requires `chunk_size - overlap > 0`, the only condition under which the unchecked loop terminates. |
| `VectorizeUtils.ChunksFromAt` | vectorize_utils.py:44-53 | Window k of the loop started at `i` begins at `i + k*step`, which is below the token count. Its chunk is the decoded Python slice `tokens[start:start+chunk_size]`. |
| `VectorizeUtils.ChunksFromCount` | vectorize_utils.py:44-53 | The loop started at `i` emits the least number of windows `c` for which `i + c*step` reaches the token count. It emits none exactly when `i` is already at or past the end. |
| `VectorizeUtils.SegmentChunkAt` | vectorize_utils.py:45-51 | When `chunk_size > 0`, chunk k of an entry is `decode(tokens[k*step .. min(k*step+chunk_size, N)])`. That window is non-empty and holds at most `chunk_size` tokens. The chunk carries the entry's own `start` and `end`. |
| `VectorizeUtils.SegmentChunkCount` | vectorize_utils.py:44-53 | An entry of N tokens yields `ceil(N/step)` chunks. The window starts are exactly the multiples of `step` below N, and N = 0 yields none. |
| `VectorizeUtils.SegmentCoverage` | vectorize_utils.py:44-53 | With `overlap >= 0`, every token index t < N lies in window `t / step`, which is one of the emitted windows. No token is skipped. |
| `VectorizeUtils.DefaultsSplitShortEntry` | vectorize_utils.py:44-53 | With 200/50, a 160-token entry yields exactly two chunks: all 160 tokens, then tokens 150..159. |
| `VectorizeUtils.ChunkAllAppend` | vectorize_utils.py:37-53 | Chunking a concatenation of transcripts gives the concatenation of their chunk lists. |
| `VectorizeUtils.ChunkAllGrouped` | vectorize_utils.py:37-53 | Output order: entry j's chunks come after those of every earlier entry and before those of every later one. |
| `VectorizeUtils.ChunkAllCount` | vectorize_utils.py:37-53 | The transcript yields as many chunks as the sum, over its entries, of `ceil(N/step)`. |
| `VectorizeUtils.SegmentChunkTimes` | vectorize_utils.py:39-51 | Every chunk cut from an entry has exactly that entry's `start` and `end`. |
| `VectorizeUtils.ChunkOrigin` | vectorize_utils.py:37-53 | Every chunk of the output carries the unmodified `start` and `end` of some transcript entry. |
| `VectorizeUtils.ThreeShortEntries` | vectorize_utils.py:37-53 | Three entries of 50 tokens each, cut with 200/50, give exactly three chunks. Chunk j has the timestamps of entry j. |
| `VectorizeUtils.Texts` | vectorize_utils.py:66 | The extracted texts list has one element per chunk, and `texts[k]` is `chunks[k].text`. |
| `VectorizeUtils.EmbedBatch` | vectorize_utils.py:67 | No contract of its own. `model.encode(texts)` as a row-by-row embedding. `EmbedChunks` states the row alignment. |
| `VectorizeUtils.EmbedChunks` | vectorize_utils.py:60-68 | The chunk list comes back unchanged. There is one vector per chunk, and row k is the embedding of chunk k's text. |
| `VectorizeUtils.SearchHitAligned` | vectorize_utils.py:66-104 | For a result list as `QueryIndex` returns it (`results[j] == chunks[indices[j]]`), `embed_chunks` hands back the chunk list unchanged and row `indices[j]` of its vectors is the embedding of `results[j]`'s text: each search hit maps to the chunk whose vector the index holds at that row. |
| `VectorizeUtils.QueryIndex` | vectorize_utils.py:87-105 | Requires every index the search returns to be a position of the chunk list (`0 <= idx < len(chunks)`). The result has one chunk per returned index, in search order, and `results[j] == chunks[indices[j]]`. |
| `Utils.MatchAt` | utils.py:10 | No contract of its own. The pattern matches at position `p`: `v=` or `youtu.be/` followed by eleven characters of `[a-zA-Z0-9_-]`. `FirstMatchFrom`, `ExtractVideoId` and the lemmas below state what follows from it. |
| `Utils.IdAt` | utils.py:10 | The captured group is exactly eleven characters from `a-z A-Z 0-9 _ -`. |
| `Utils.FirstMatchFrom` | utils.py:10 | Returns the leftmost position at or after `p` where a marker and eleven id characters begin. Returns `None` exactly when no such position exists. |
| `Utils.ExtractVideoId` | utils.py:6-13 | On success the id has eleven id characters. It is the group of a match at some position, and no earlier position matches. It fails, with message `Invalid YouTube URL`, if and only if no position matches. |
| `Utils.IdFollowsMarker` | utils.py:10 | At a match, the URL reads `v=` or `youtu.be/` immediately followed by the returned id. |
| `Utils.MatchExtends` | utils.py:10 | A match stays a match, with the same id, when text is appended to the URL. |
| `Utils.EarlierMatchInside` | utils.py:10 | A match that starts before a match lying inside the URL also lies inside the URL. The two markers cannot overlap so as to reach further. |
| `Utils.ExtractIgnoresSuffix` | utils.py:10-13 | There is no end anchor. Once a URL yields an id, appending any text yields the same id, so only the first eleven id characters are taken. |
| `Utils.Decimal` | utils.py:23 | The decimal form of k is a non-empty string of digits. It has no leading zero unless k is 0, and it is one character exactly when k < 10. |
| `Utils.DecimalRoundTrip` | utils.py:23 | Reading the decimal form back gives k, so the numbering is injective. |
| `Utils.EntryIdsDistinct` | utils.py:21-23 | Different positions get different ids `c<k>`. |
| `Utils.EntryId` | utils.py:21-23 | No contract of its own. The id `"c" + str(k)`. `EntryIdsDistinct` states that different positions get different ids. |
| `Utils.TransformTranscript` | utils.py:16-28 | The output has the same length and order as the input. Entry k (from 0) has id `"c" + str(k+1)`, the snippet's text and start, and `end == start + duration`. All ids are distinct. |
| `Preprocessing.CleanText` | preprocessing.py:5-22 | No contract of its own. The five rewrites of `clean_text`, in order. `CleanTextChars`, `CleanTextLayout`, `CleanTextShape` and `CleanTextIdempotent` state its properties. |
| `Preprocessing.DropBracketed` | preprocessing.py:8 | No contract of its own. `re.sub(r"\[.*?\]", "", text)`, leftmost group first. `DropBracketedChars`, `DropBracketedSubseq`, `DropBracketedPrefix` and `BracketGroupRemoved` state its properties. |
| `Preprocessing.KeepAllowed` | preprocessing.py:11 | No contract of its own. The filter `[^\w\s.,!?'-]`. `KeepAllowedChars`, `KeepAllowedSubseq` and `KeepAllowedUnchanged` state its properties. |
| `Preprocessing.CollapseRuns` | preprocessing.py:14 | No contract of its own. `([!?.,])\1+` replaced by one character. `CollapseRunsShape`, `CollapseRunsSubseq` and `CollapseRunsUnchanged` state its properties. |
| `Preprocessing.Lower` | preprocessing.py:17 | No contract of its own. `text.lower()` on ASCII letters. `LowerShape` and `LowerUnchanged` state its properties. |
| `Preprocessing.SqueezeSpace` | preprocessing.py:20 | No contract of its own. `re.sub(r"\s+", " ", text)`. The `SqueezeSpace*` lemmas state its properties. |
| `Preprocessing.StripLeft` | preprocessing.py:20 | No contract of its own. The leading half of `strip()`. `StripLeftShape` states its properties. |
| `Preprocessing.StripRight` | preprocessing.py:20 | No contract of its own. The trailing half of `strip()`. `StripRightShape` states its properties. |
| `Preprocessing.Strip` | preprocessing.py:20 | No contract of its own. `strip()`. `StripShape` and `StripUnchanged` state its properties. |
| `Preprocessing.ClosingBracket` | preprocessing.py:8 | The lazy `.*?\]` stops at the first `]` at or after `j`, and only if no line feed or `]` comes before it. Otherwise every later `]` has a line feed before it. |
| `Preprocessing.ClosingBracketAt` | preprocessing.py:8 | When `e` is the first `]` and no line feed comes before it, the lazy search stops exactly at `e`. |
| `Preprocessing.DropBracketedChars` | preprocessing.py:8 | Every character that bracket removal outputs occurs in the input. |
| `Preprocessing.IsSubseq` | preprocessing.py:8-14 | No contract of its own. `r` is `s` with some characters deleted, the rest kept in order. It is what "only deletes" means in the three lemmas below. |
| `Preprocessing.SubseqSkip` | preprocessing.py:8-14 | Deleting a prefix of the input as well still leaves a subsequence of the input. |
| `Preprocessing.DropBracketedSubseq` | preprocessing.py:8 | Bracket removal only deletes: the output is a subsequence of the input. |
| `Preprocessing.KeepAllowedSubseq` | preprocessing.py:11 | The character filter only deletes: the output is a subsequence of the input. |
| `Preprocessing.CollapseRunsSubseq` | preprocessing.py:14 | Collapsing runs only deletes: the output is a subsequence of the input. |
| `Preprocessing.KeepAllowedChars` | preprocessing.py:11 | The character filter keeps only word characters, whitespace and `. , ! ? ' -`, each from the input. |
| `Preprocessing.CollapseRunsShape` | preprocessing.py:14 | Collapsing outputs only characters of the input and keeps the first character. No character of `! ? . ,` is left immediately repeated. |
| `Preprocessing.SqueezeSpaceHead` | preprocessing.py:20 | The squeezed text starts with the input's first character, or with a plain space if that character was whitespace. |
| `Preprocessing.SqueezeSpaceChars` | preprocessing.py:20 | After `\s+ -> " "`, the only whitespace left is the plain space. Every other character comes from the input. |
| `Preprocessing.SqueezeSpaceSingle` | preprocessing.py:20 | After squeezing, no two whitespace characters are adjacent. |
| `Preprocessing.SqueezeSpaceKeepsNoRepeat` | preprocessing.py:14-20 | Squeezing creates no repeated `! ? . ,`. |
| `Preprocessing.StripLeftShape` | preprocessing.py:20 | Left stripping removes a prefix made only of whitespace. The result does not start with whitespace. |
| `Preprocessing.StripRightShape` | preprocessing.py:20 | Right stripping removes a suffix made only of whitespace. The result does not end with whitespace. |
| `Preprocessing.SliceKeeps` | preprocessing.py:20 | A contiguous part of a string keeps "no repeated punctuation", "no adjacent whitespace" and its character set. |
| `Preprocessing.StripShape` | preprocessing.py:20 | `strip()` returns a contiguous part of its input (a prefix of a suffix) with no whitespace at either end. Every output character occurs in the input, and it keeps the no-repeat and no-adjacent-space properties. |
| `Preprocessing.LowerShape` | preprocessing.py:11-17 | Lowercasing keeps the allowed character classes, removes upper case and creates no repeated punctuation. |
| `Preprocessing.CleanTextChars` | preprocessing.py:5-22 | Every output character is a word character, a plain space or one of `. , ! ? ' -`. So the output has no `[`, no `]` and no upper-case letter. |
| `Preprocessing.CleanTextLayout` | preprocessing.py:5-22 | Whitespace in the output is only single plain spaces, none at either end. No character of `! ? . ,` is immediately repeated. |
| `Preprocessing.CleanTextShape` | preprocessing.py:5-22 | The two lemmas above together, as the `IsClean` predicate. |
| `Preprocessing.DropBracketedPrefix` | preprocessing.py:8 | Text without `[` passes the bracket rewrite unchanged in front of whatever follows. |
| `Preprocessing.BracketGroupRemoved` | preprocessing.py:8 | In `a + "[" + m + "]" + b`, with no `[` in `a` and no `]` or line feed in `m`, the whole group goes. The result is `a` followed by the rewrite of `b`. |
| `Preprocessing.KeepAllowedUnchanged` | preprocessing.py:11 | The filter leaves text of allowed characters unchanged. |
| `Preprocessing.CollapseRunsUnchanged` | preprocessing.py:14 | Collapsing leaves text without repeated punctuation unchanged. |
| `Preprocessing.LowerUnchanged` | preprocessing.py:17 | Lowercasing leaves text without upper case unchanged. |
| `Preprocessing.SqueezeSpaceUnchanged` | preprocessing.py:20 | Squeezing leaves text whose whitespace is single plain spaces unchanged. |
| `Preprocessing.StripUnchanged` | preprocessing.py:20 | Stripping leaves text without whitespace at its ends unchanged. |
| `Preprocessing.CleanTextIdempotent` | preprocessing.py:5-22 | `clean_text(clean_text(s)) == clean_text(s)`. |
| `Preprocessing.CleanTranscript` | preprocessing.py:25-34 | The output has the same length and order as the input. Each entry keeps its `id`, `start` and `end`, and its text becomes `clean_text(text)`. |

## Left out

- `load_transcript` (vectorize_utils.py:12-19) reads a JSON file. This is I/O.
- `create_faiss_index` (vectorize_utils.py:74-81) and the index search are a foreign library computing floating-point L2 distances. The model keeps only the shape of the result: a row of indices.
- The search is assumed to return indices in `[0, |chunks|)`. FAISS pads with `-1` when `top_k` exceeds the index size. Python's `chunks[-1]` would then return the last chunk. That behaviour is not modelled.
- The tokenizer (`AutoTokenizer.encode/decode`) and the embedding model (`SentenceTransformer.encode`) are foreign. They are parameters: `decode` is deterministic per window, and the batch embedding is assumed to be row-aligned with its input texts. Loading the models by name is not modelled.
- extractor.py (fetching captions over the network and writing `transcript.json`) and vectorize.py (the driver that prints results) are I/O. They are not part of this model. Only vectorize.py's defaults 200/50 appear, in `DefaultsSplitShortEntry` and `ThreeShortEntries`.
- Timestamps are exact reals. Floating-point rounding of `start + duration` (utils.py:26) is not modelled.
- `Preprocessing.CleanTextChars`: the character classes are those of ASCII. Python's `\w`, `\s` and `str.lower()` are Unicode-aware. For non-ASCII input, the model drops letters that Python keeps. It treats non-ASCII whitespace such as U+00A0 as an ordinary character, which the filter then removes. It does not model `lower()` changing the string's length. The property that every output character is a word character, a plain space or `. , ! ? ' -` holds for the ASCII classes only. With Python's Unicode rules, `clean_text("İ")` keeps U+0130 through the filter, and `lower()` then turns it into `i` followed by U+0307, which is not a word character. So `clean_text` can output a character outside the allowed classes.
- `Preprocessing.CleanTextIdempotent`: idempotence is proved for the ASCII classes only. Under Python's Unicode rules it fails: on the output of `clean_text("İ")`, a second pass drops the U+0307 that the first pass produced.
- The case `chunk_size - overlap <= 0`, where the source loops forever on any non-empty entry, is excluded by the precondition of `ChunkTranscript` rather than modelled.
