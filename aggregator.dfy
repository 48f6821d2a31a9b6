/**
 * `TextSummarizer.summarize_text_in_chunks`: one model call per chunk, in
 * chunk order, the results collected in a list and joined with one space.
 */
module SummaryAggregator {
  import opened Text
  import opened ChunkSplitter

  /** The generation options passed with each call. */
  datatype GenerationOptions = GenerationOptions(maxLength: nat, minLength: nat, doSample: bool)

  /** `max_length=60, min_length=30, do_sample=False`. */
  const CHUNK_OPTIONS := GenerationOptions(60, 30, false)

  /** The summarisation model, reduced to the text it returns for a chunk.
      A total function: the same chunk and options always give the same
      summary, which is what greedy decoding (`do_sample=False`) provides. */
  type Model = (string, GenerationOptions) -> string

  /** The summary of each chunk, in chunk order. */
  function ChunkSummaries(text: string, size: nat, model: Model): seq<string>
    requires size > 0
  {
    var cs := Chunks(text, size);
    seq(|cs|, i requires 0 <= i < |cs| => model(cs[i], CHUNK_OPTIONS))
  }

  /** What `summarize_text_in_chunks` returns. */
  function CombinedSummary(text: string, size: nat, model: Model): string
    requires size > 0
  {
    Join(ChunkSummaries(text, size, model), " ")
  }

  /** `summarize_text_in_chunks(text, max_chunk_size)`: the loop slices the
      text, calls the model on each slice and appends the summary. The ghost
      `calls` records the text of every model call, in call order: one call
      per chunk, in chunk order. */
  method SummarizeTextInChunks(text: string, maxChunkSize: nat, model: Model)
    returns (summary: string, ghost calls: seq<string>)
    requires maxChunkSize > 0
    ensures summary == CombinedSummary(text, maxChunkSize, model)
    ensures calls == Chunks(text, maxChunkSize)
  {
    var numChunks := NumChunks(|text|, maxChunkSize);
    var summaries: seq<string> := [];
    calls := [];
    for i := 0 to numChunks
      invariant calls == Chunks(text, maxChunkSize)[..i]
      invariant summaries == ChunkSummaries(text, maxChunkSize, model)[..i]
    {
      var chunk := Slice(text, i * maxChunkSize, (i + 1) * maxChunkSize);
      var s := model(chunk, CHUNK_OPTIONS);
      calls := calls + [chunk];
      summaries := summaries + [s];
    }
    assert calls == Chunks(text, maxChunkSize);
    assert summaries == ChunkSummaries(text, maxChunkSize, model);
    summary := Join(summaries, " ");
  }

  /** An empty text gives the empty summary, without calling the model. */
  lemma CombinedSummaryEmpty(size: nat, model: Model)
    requires size > 0
    ensures CombinedSummary([], size, model) == []
  {
  }

  /** A text that fits in one chunk gives the model's answer for the whole
      text, verbatim. */
  lemma CombinedSummarySingle(text: string, size: nat, model: Model)
    requires size > 0 && 0 < |text| <= size
    ensures CombinedSummary(text, size, model) == model(text, CHUNK_OPTIONS)
  {
    ChunksSingle(text, size);
    assert ChunkSummaries(text, size, model) == [model(text, CHUNK_OPTIONS)];
  }

  /** Order is kept: for a split at a chunk boundary, the summary of the
      front comes first, then one space, then the summary of the rest. */
  lemma CombinedSummaryAppend(a: string, b: string, size: nat, model: Model)
    requires size > 0 && |a| % size == 0 && a != [] && b != []
    ensures CombinedSummary(a + b, size, model)
         == CombinedSummary(a, size, model) + " " + CombinedSummary(b, size, model)
  {
    ChunksAppend(a, b, size);
    var sa := ChunkSummaries(a, size, model);
    var sb := ChunkSummaries(b, size, model);
    assert ChunkSummaries(a + b, size, model) == sa + sb;
    assert |Chunks(a, size)| > 0 && |Chunks(b, size)| > 0;
    JoinAppend(sa, sb, " ");
  }

  /** The summary of a text that is a whole number of chunks followed by a
      last piece is the summary of the front, a space, and the model's
      answer for the last piece. */
  lemma CombinedSummarySnoc(a: string, last: string, size: nat, model: Model)
    requires size > 0 && |a| % size == 0 && a != [] && 0 < |last| <= size
    ensures CombinedSummary(a + last, size, model)
         == CombinedSummary(a, size, model) + " " + model(last, CHUNK_OPTIONS)
  {
    CombinedSummaryAppend(a, last, size, model);
    CombinedSummarySingle(last, size, model);
  }
}
