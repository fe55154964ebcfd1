/**
 * The chunk -> embed -> search glue of the retrieval pipeline.
 *
 * The tokenizer, the sentence-embedding model and the nearest-neighbour index
 * are foreign; each is a value holding total functions, so the model states
 * what the pipeline does with their results and nothing about how they work.
 */
module VectorizeUtils {
  import opened Transcript

  type Token = int
  type Vector = seq<real>

  /** A tokenizer: `encode` splits text into tokens, `decode` is deterministic per window. */
  datatype Tokenizer = Tokenizer(encode: string -> seq<Token>, decode: seq<Token> -> string)

  /** A chunk keeps the timestamps of the entry it was cut from. */
  datatype Chunk = Chunk(text: string, start: real, end: real)

  /** An embedding model, applied row by row: row k of a batch is the vector of text k. */
  datatype Embedder = Embedder(embed: string -> Vector)

  /** A built index; `search(q, k)` is the first row of indices of a search for `q`. */
  datatype SearchIndex = SearchIndex(search: (Vector, int) -> seq<int>)

  function Min(a: int, b: int): int { if a < b then a else b }

  /** Python's `s[lo:hi]` for a non-negative `lo`: a negative `hi` counts from the end. */
  function Slice<T>(s: seq<T>, lo: nat, hi: int): seq<T>
  {
    var h := if hi < 0 then (if |s| + hi < 0 then 0 else |s| + hi) else Min(hi, |s|);
    if lo < h then s[lo..h] else []
  }

  /** The first token of window number `k` when windows advance by `step`. */
  function WindowStart(step: int, k: nat): int { k * step }

  lemma WindowStartNext(step: int, k: nat)
    ensures WindowStart(step, k + 1) == WindowStart(step, k) + step
  {
    assert (k + 1) * step == k * step + step;
  }

  // ---------------------------------------------------------------------------
  // Chunking
  // ---------------------------------------------------------------------------

  /**
   * The chunks the windowing loop emits for `tokens` once its window start is `i`:
   * one window per start `i, i + step, ...` below the token count.
   */
  function ChunksFrom(tk: Tokenizer, tokens: seq<Token>, chunkSize: int, overlap: int,
                      i: nat, start: real, end: real): seq<Chunk>
    requires chunkSize - overlap > 0
    decreases |tokens| - i
  {
    if i < |tokens| then
      [Chunk(tk.decode(Slice(tokens, i, i + chunkSize)), start, end)]
        + ChunksFrom(tk, tokens, chunkSize, overlap, i + (chunkSize - overlap), start, end)
    else []
  }

  /** The chunks cut from one transcript entry. */
  function SegmentChunks(tk: Tokenizer, e: Entry, chunkSize: int, overlap: int): seq<Chunk>
    requires chunkSize - overlap > 0
  {
    ChunksFrom(tk, tk.encode(e.text), chunkSize, overlap, 0, e.start, e.end)
  }

  /** The chunks of a whole transcript: each entry's chunks, entry after entry. */
  function ChunkAll(tk: Tokenizer, ts: seq<Entry>, chunkSize: int, overlap: int): seq<Chunk>
    requires chunkSize - overlap > 0
  {
    if ts == [] then []
    else ChunkAll(tk, ts[..|ts| - 1], chunkSize, overlap) + SegmentChunks(tk, ts[|ts| - 1], chunkSize, overlap)
  }

  /** The number of windows an entry of `n` tokens yields: the ceiling of n / step. */
  function CeilDiv(n: nat, step: int): nat
    requires step > 0
  {
    (n + step - 1) / step
  }

  /** The sum over the entries of their window counts. */
  function TotalWindows(tk: Tokenizer, ts: seq<Entry>, chunkSize: int, overlap: int): nat
    requires chunkSize - overlap > 0
  {
    if ts == [] then 0
    else (TotalWindows(tk, ts[..|ts| - 1], chunkSize, overlap)
          + CeilDiv(|tk.encode(ts[|ts| - 1].text)|, chunkSize - overlap))
  }

  /**
   * `chunk_transcript`: for each entry, encode its text and emit one chunk per
   * window of `chunkSize` tokens, advancing the window start by
   * `chunkSize - overlap`. `chunk_transcript` does not check that this step is
   * positive; the loop only terminates when it is, hence the precondition.
   */
  method ChunkTranscript(transcript: seq<Entry>, tk: Tokenizer, chunkSize: int, overlap: int)
    returns (chunks: seq<Chunk>)
    requires chunkSize - overlap > 0
    ensures chunks == ChunkAll(tk, transcript, chunkSize, overlap)
  {
    chunks := [];
    for j := 0 to |transcript|
      invariant chunks == ChunkAll(tk, transcript[..j], chunkSize, overlap)
    {
      var entry := transcript[j];
      var tokens := tk.encode(entry.text);
      ghost var before := chunks;
      var i := 0;
      while i < |tokens|
        invariant 0 <= i
        invariant chunks + ChunksFrom(tk, tokens, chunkSize, overlap, i, entry.start, entry.end)
               == before + SegmentChunks(tk, entry, chunkSize, overlap)
        decreases |tokens| - i
      {
        var chunkTokens := Slice(tokens, i, i + chunkSize);
        var chunkText := tk.decode(chunkTokens);
        chunks := chunks + [Chunk(chunkText, entry.start, entry.end)];
        i := i + (chunkSize - overlap);
      }
      assert transcript[..j + 1][..j] == transcript[..j];
    }
    assert transcript[..|transcript|] == transcript;
  }

  // ---------------------------------------------------------------------------
  // Properties of the windows of one entry
  // ---------------------------------------------------------------------------

  /** Window k of the loop started at `i` begins at `i + k * step`, below the token count. */
  lemma {:induction false} ChunksFromAt(tk: Tokenizer, tokens: seq<Token>, chunkSize: int, overlap: int,
                                        i: nat, start: real, end: real, k: nat)
    requires chunkSize - overlap > 0
    requires k < |ChunksFrom(tk, tokens, chunkSize, overlap, i, start, end)|
    ensures i + WindowStart(chunkSize - overlap, k) < |tokens|
    ensures ChunksFrom(tk, tokens, chunkSize, overlap, i, start, end)[k]
         == Chunk(tk.decode(Slice(tokens, i + WindowStart(chunkSize - overlap, k),
                                  i + WindowStart(chunkSize - overlap, k) + chunkSize)), start, end)
    decreases k
  {
    var step := chunkSize - overlap;
    if k > 0 {
      ChunksFromAt(tk, tokens, chunkSize, overlap, i + step, start, end, k - 1);
      WindowStartNext(step, k - 1);
    }
  }

  /**
   * The loop started at `i` emits `c` windows where `c` is the least count whose
   * next start `i + c * step` reaches the token count.
   */
  lemma {:induction false} ChunksFromCount(tk: Tokenizer, tokens: seq<Token>, chunkSize: int, overlap: int,
                                           i: nat, start: real, end: real)
    requires chunkSize - overlap > 0
    ensures var c := |ChunksFrom(tk, tokens, chunkSize, overlap, i, start, end)|;
      i + WindowStart(chunkSize - overlap, c) >= |tokens|
      && (c > 0 ==> i + WindowStart(chunkSize - overlap, c - 1) < |tokens|)
      && (c == 0 <==> i >= |tokens|)
    decreases |tokens| - i
  {
    var step := chunkSize - overlap;
    if i < |tokens| {
      ChunksFromCount(tk, tokens, chunkSize, overlap, i + step, start, end);
      var c' := |ChunksFrom(tk, tokens, chunkSize, overlap, i + step, start, end)|;
      WindowStartNext(step, c');
      if c' > 0 {
        WindowStartNext(step, c' - 1);
      }
    }
  }

  lemma MulAtLeastOne(d: int, b: int)
    requires d >= 1 && b > 0
    ensures d * b >= b
  {
  }

  lemma MulMonotone(a: int, c: int, m: int)
    requires a <= c && m > 0
    ensures a * m <= c * m
  {
    if a < c {
      MulAtLeastOne(c - a, m);
      assert (c - a) * m == c * m - a * m;
    }
  }

  /** `t / b` is the number of whole steps of `b` below or at `t`. */
  lemma DivBounds(t: nat, b: int)
    requires b > 0
    ensures (t / b) * b <= t < (t / b) * b + b
  {
    assert t == (t / b) * b + t % b;
  }

  /** `x / b == c` whenever `c * b <= x < c * b + b`. */
  lemma DivBetween(x: int, b: int, c: int)
    requires b > 0 && c * b <= x < c * b + b
    ensures x / b == c
  {
    var q := x / b;
    assert x == q * b + x % b;
    assert 0 <= x % b < b;
    assert (q - c) * b == q * b - c * b;
    if q > c {
      MulAtLeastOne(q - c, b);
    } else if q < c {
      MulAtLeastOne(c - q, b);
    }
  }

  /** A window that starts inside the tokens is a non-empty slice of at most `chunkSize` tokens. */
  lemma WindowSlice(tokens: seq<Token>, s: int, chunkSize: int)
    requires 0 <= s < |tokens| && chunkSize > 0
    ensures Slice(tokens, s, s + chunkSize) == tokens[s..Min(s + chunkSize, |tokens|)]
    ensures 0 < |tokens[s..Min(s + chunkSize, |tokens|)]| <= chunkSize
  {
  }

  /**
   * Per entry: window k covers `tokens[k*step .. min(k*step + chunkSize, N)]`,
   * which is non-empty and holds at most `chunkSize` tokens when `chunkSize > 0`;
   * every chunk carries the entry's own `start` and `end`.
   */
  lemma SegmentChunkAt(tk: Tokenizer, e: Entry, chunkSize: int, overlap: int, k: nat)
    requires chunkSize - overlap > 0 && chunkSize > 0
    requires k < |SegmentChunks(tk, e, chunkSize, overlap)|
    ensures 0 <= WindowStart(chunkSize - overlap, k) < |tk.encode(e.text)|
    ensures var tokens, s := tk.encode(e.text), WindowStart(chunkSize - overlap, k);
      var window := tokens[s..Min(s + chunkSize, |tokens|)];
      SegmentChunks(tk, e, chunkSize, overlap)[k] == Chunk(tk.decode(window), e.start, e.end)
      && 0 < |window| <= chunkSize
  {
    var tokens, step := tk.encode(e.text), chunkSize - overlap;
    ChunksFromAt(tk, tokens, chunkSize, overlap, 0, e.start, e.end, k);
    if k > 0 {
      MulAtLeastOne(k, step);
    }
    WindowSlice(tokens, WindowStart(step, k), chunkSize);
  }

  /**
   * An entry of N tokens yields ceil(N / step) chunks: starts 0, step, 2*step, ...
   * are exactly the multiples of step below N. In particular N == 0 yields none.
   */
  lemma SegmentChunkCount(tk: Tokenizer, e: Entry, chunkSize: int, overlap: int)
    requires chunkSize - overlap > 0
    ensures var n := |tk.encode(e.text)|;
      var c := |SegmentChunks(tk, e, chunkSize, overlap)|;
      c == CeilDiv(n, chunkSize - overlap)
      && WindowStart(chunkSize - overlap, c) >= n
      && (c > 0 ==> WindowStart(chunkSize - overlap, c - 1) < n)
      && (n == 0 <==> c == 0)
  {
    var tokens := tk.encode(e.text);
    var n, step := |tokens|, chunkSize - overlap;
    ChunksFromCount(tk, tokens, chunkSize, overlap, 0, e.start, e.end);
    var c := |SegmentChunks(tk, e, chunkSize, overlap)|;
    if c > 0 {
      assert (c - 1) * step + step == c * step;
      DivBetween(n + step - 1, step, c);
    } else {
      DivBetween(n + step - 1, step, 0);
    }
  }

  /**
   * No token is skipped when the overlap is not negative: token t lies in
   * window number t / step.
   */
  lemma SegmentCoverage(tk: Tokenizer, e: Entry, chunkSize: int, overlap: int, t: nat)
    requires chunkSize - overlap > 0 && overlap >= 0
    requires t < |tk.encode(e.text)|
    ensures var k := t / (chunkSize - overlap);
      k < |SegmentChunks(tk, e, chunkSize, overlap)|
      && WindowStart(chunkSize - overlap, k) <= t < WindowStart(chunkSize - overlap, k) + chunkSize
  {
    var step := chunkSize - overlap;
    var k := t / step;
    var c := |SegmentChunks(tk, e, chunkSize, overlap)|;
    DivBounds(t, step);
    SegmentChunkCount(tk, e, chunkSize, overlap);
    if k >= c {
      MulMonotone(c, k, step);
      assert false;
    }
  }

  /**
   * With the defaults `chunkSize = 200, overlap = 50`, an entry of 160 tokens
   * yields two chunks, the second of which repeats the last ten tokens of the first.
   */
  lemma DefaultsSplitShortEntry(tk: Tokenizer, e: Entry)
    requires |tk.encode(e.text)| == 160
    ensures var tokens := tk.encode(e.text);
      SegmentChunks(tk, e, 200, 50)
        == [Chunk(tk.decode(tokens), e.start, e.end), Chunk(tk.decode(tokens[150..]), e.start, e.end)]
  {
    var tokens := tk.encode(e.text);
    var rest := ChunksFrom(tk, tokens, 200, 50, 150, e.start, e.end);
    assert ChunksFrom(tk, tokens, 200, 50, 300, e.start, e.end) == [];
    assert rest == [Chunk(tk.decode(Slice(tokens, 150, 350)), e.start, e.end)];
    assert ChunksFrom(tk, tokens, 200, 50, 0, e.start, e.end) == [Chunk(tk.decode(Slice(tokens, 0, 200)), e.start, e.end)] + rest;
    assert Slice(tokens, 0, 200) == tokens;
    assert Slice(tokens, 150, 350) == tokens[150..];
  }

  // ---------------------------------------------------------------------------
  // Properties of the whole transcript
  // ---------------------------------------------------------------------------

  /** Chunking distributes over concatenation of transcripts. */
  lemma {:induction false} ChunkAllAppend(tk: Tokenizer, a: seq<Entry>, b: seq<Entry>, chunkSize: int, overlap: int)
    requires chunkSize - overlap > 0
    ensures ChunkAll(tk, a + b, chunkSize, overlap) == ChunkAll(tk, a, chunkSize, overlap) + ChunkAll(tk, b, chunkSize, overlap)
    decreases |b|
  {
    if b == [] {
      assert a + b == a;
    } else {
      var b' := b[..|b| - 1];
      assert (a + b)[..|a + b| - 1] == a + b';
      assert (a + b)[|a + b| - 1] == b[|b| - 1];
      ChunkAllAppend(tk, a, b', chunkSize, overlap);
    }
  }

  /**
   * Output order: the chunks of entry j come after those of the entries before it
   * and before those of the entries after it.
   */
  lemma ChunkAllGrouped(tk: Tokenizer, ts: seq<Entry>, chunkSize: int, overlap: int, j: nat)
    requires chunkSize - overlap > 0 && j < |ts|
    ensures ChunkAll(tk, ts, chunkSize, overlap)
         == ChunkAll(tk, ts[..j], chunkSize, overlap)
          + SegmentChunks(tk, ts[j], chunkSize, overlap)
          + ChunkAll(tk, ts[j + 1..], chunkSize, overlap)
  {
    assert ts == ts[..j] + [ts[j]] + ts[j + 1..];
    ChunkAllAppend(tk, ts[..j] + [ts[j]], ts[j + 1..], chunkSize, overlap);
    ChunkAllAppend(tk, ts[..j], [ts[j]], chunkSize, overlap);
    assert ChunkAll(tk, [ts[j]], chunkSize, overlap) == SegmentChunks(tk, ts[j], chunkSize, overlap) by {
      assert [ts[j]][..0] == [];
    }
  }

  /** The transcript yields as many chunks as its entries have windows in total. */
  lemma {:induction false} ChunkAllCount(tk: Tokenizer, ts: seq<Entry>, chunkSize: int, overlap: int)
    requires chunkSize - overlap > 0
    ensures |ChunkAll(tk, ts, chunkSize, overlap)| == TotalWindows(tk, ts, chunkSize, overlap)
    decreases |ts|
  {
    if ts != [] {
      ChunkAllCount(tk, ts[..|ts| - 1], chunkSize, overlap);
      SegmentChunkCount(tk, ts[|ts| - 1], chunkSize, overlap);
    }
  }

  /** Every chunk of one entry carries that entry's `start` and `end`. */
  lemma SegmentChunkTimes(tk: Tokenizer, e: Entry, chunkSize: int, overlap: int, c: Chunk)
    requires chunkSize - overlap > 0
    requires c in SegmentChunks(tk, e, chunkSize, overlap)
    ensures c.start == e.start && c.end == e.end
  {
    var k :| 0 <= k < |SegmentChunks(tk, e, chunkSize, overlap)| && SegmentChunks(tk, e, chunkSize, overlap)[k] == c;
    ChunksFromAt(tk, tk.encode(e.text), chunkSize, overlap, 0, e.start, e.end, k);
  }

  /** Every chunk of the transcript carries the unmodified timestamps of some entry. */
  lemma {:induction false} ChunkOrigin(tk: Tokenizer, ts: seq<Entry>, chunkSize: int, overlap: int, c: Chunk)
    requires chunkSize - overlap > 0
    requires c in ChunkAll(tk, ts, chunkSize, overlap)
    ensures exists e :: e in ts && c.start == e.start && c.end == e.end
    decreases |ts|
  {
    var init, last := ts[..|ts| - 1], ts[|ts| - 1];
    if c in ChunkAll(tk, init, chunkSize, overlap) {
      ChunkOrigin(tk, init, chunkSize, overlap, c);
      var e :| e in init && c.start == e.start && c.end == e.end;
      assert e in ts;
    } else {
      SegmentChunkTimes(tk, last, chunkSize, overlap, c);
      assert last in ts;
    }
  }

  /**
   * Three entries of 50 tokens each, cut with `chunkSize = 200, overlap = 50`,
   * give exactly three chunks, each with the timestamps of its own entry.
   */
  lemma ThreeShortEntries(tk: Tokenizer, ts: seq<Entry>)
    requires |ts| == 3
    requires forall j :: 0 <= j < 3 ==> |tk.encode(ts[j].text)| == 50
    ensures var chunks := ChunkAll(tk, ts, 200, 50);
      |chunks| == 3
      && forall j :: 0 <= j < 3 ==> chunks[j].start == ts[j].start && chunks[j].end == ts[j].end
  {
    forall j | 0 <= j < 3
      ensures SegmentChunks(tk, ts[j], 200, 50) == [Chunk(tk.decode(tk.encode(ts[j].text)), ts[j].start, ts[j].end)]
    {
      var tokens := tk.encode(ts[j].text);
      assert ChunksFrom(tk, tokens, 200, 50, 150, ts[j].start, ts[j].end) == [];
      assert Slice(tokens, 0, 200) == tokens;
    }
    assert ts[..1][..0] == [] && ts[..2][..1] == ts[..1] && ts[..3][..2] == ts[..2] && ts[..3] == ts;
    assert ChunkAll(tk, ts[..1], 200, 50) == SegmentChunks(tk, ts[0], 200, 50);
    assert ChunkAll(tk, ts[..2], 200, 50) == SegmentChunks(tk, ts[0], 200, 50) + SegmentChunks(tk, ts[1], 200, 50);
    assert ChunkAll(tk, ts, 200, 50)
        == SegmentChunks(tk, ts[0], 200, 50) + SegmentChunks(tk, ts[1], 200, 50) + SegmentChunks(tk, ts[2], 200, 50);
  }

  // ---------------------------------------------------------------------------
  // Embedding and search
  // ---------------------------------------------------------------------------

  /** The texts of the chunks, position by position. */
  function Texts(chunks: seq<Chunk>): (texts: seq<string>)
    ensures |texts| == |chunks|
    ensures forall k :: 0 <= k < |chunks| ==> texts[k] == chunks[k].text
  {
    if chunks == [] then [] else [chunks[0].text] + Texts(chunks[1..])
  }

  /** A batch embedding: one vector per text, in order. */
  function EmbedBatch(model: Embedder, texts: seq<string>): seq<Vector>
  {
    seq(|texts|, k requires 0 <= k < |texts| => model.embed(texts[k]))
  }

  /**
   * `embed_chunks`: embeds the chunk texts and returns the vectors together with
   * the chunk list, untouched; row k of the vectors belongs to chunk k.
   */
  function EmbedChunks(chunks: seq<Chunk>, model: Embedder): (r: (seq<Vector>, seq<Chunk>))
    ensures r.1 == chunks
    ensures |r.0| == |chunks|
    ensures forall k :: 0 <= k < |chunks| ==> r.0[k] == model.embed(chunks[k].text)
  {
    (EmbedBatch(model, Texts(chunks)), chunks)
  }

  /** Every index a search returned names a position of a list of `n` chunks. */
  predicate IndicesIn(indices: seq<int>, n: int)
  {
    forall j :: 0 <= j < |indices| ==> 0 <= indices[j] < n
  }

  /**
   * `query_index`: embeds the question, searches the index and maps each
   * returned row index back to its chunk, in search order.
   */
  method QueryIndex(question: string, index: SearchIndex, chunks: seq<Chunk>, model: Embedder, topK: int)
    returns (results: seq<Chunk>)
    requires IndicesIn(index.search(model.embed(question), topK), |chunks|)
    ensures var indices := index.search(model.embed(question), topK);
      |results| == |indices|
      && (forall j :: 0 <= j < |indices| ==> results[j] == chunks[indices[j]])
  {
    var queryEmbedding := model.embed(question);
    var indices := index.search(queryEmbedding, topK);
    results := [];
    for j := 0 to |indices|
      invariant |results| == j
      invariant forall m :: 0 <= m < j ==> results[m] == chunks[indices[m]]
    {
      results := results + [chunks[indices[j]]];
    }
  }

  /**
   * Alignment of `embed_chunks` with `query_index`: given a result list as
   * `QueryIndex` returns it for row indices `indices`, the j-th result is the
   * chunk whose vector sits at row `indices[j]` of the vectors `EmbedChunks`
   * returned for the same chunks.
   */
  lemma SearchHitAligned(chunks: seq<Chunk>, model: Embedder, indices: seq<int>, results: seq<Chunk>)
    requires IndicesIn(indices, |chunks|)
    requires |results| == |indices| && forall j :: 0 <= j < |indices| ==> results[j] == chunks[indices[j]]
    ensures var (vectors, kept) := EmbedChunks(chunks, model);
      kept == chunks
      && forall j :: 0 <= j < |results| ==> vectors[indices[j]] == model.embed(results[j].text)
  {
  }
}
