# Chunked summarisation pipeline of `TextSummarizer`

This project models the text-processing core of the research summariser's
`TextSummarizer` class (`summarizer.py`) and proves properties of that model
in Dafny. The class reads the text of a PDF document, cleans it, cuts it into
fixed-size chunks, sends each chunk to a summarisation model, and joins the
summaries.

The files are:

- `text.dfy` (module `Text`): Python's `str.isspace`, `strip`, `lstrip`,
  `rstrip`, `"".join` and `sep.join` on strings of Unicode scalar values.
- `cleaner.dfy` (module `TextCleaner`): `clean_text`, modelled as its four
  rewrites.
  1. `RemoveCitations` deletes `[digits]` and `(digits)` markers in one
     left-to-right pass.
  2. `KeepAllowed` keeps only `a-zA-Z0-9.,!? \n`.
  3. `NormalizeWhitespace` replaces each run of white space by one blank, then
     strips both ends.
  4. `BreakSentences` replaces every `.` with `.` plus a newline.
- `chunking.dfy` (module `ChunkSplitter`): the slicing policy of
  `summarize_text_in_chunks`. A text cut with chunk size `N` gives
  `ceil(len(text) / N)` slices `text[i*N:(i+1)*N]`.
- `aggregator.dfy` (module `SummaryAggregator`): the loop of
  `summarize_text_in_chunks`. It makes one model call per chunk, in order, and
  joins the results with a single space. The method is proved against the
  function `CombinedSummary`. A ghost output records the text of every call,
  and the method proves that these are exactly the chunks, in order.
- `pipeline.dfy` (module `SummarizationPipeline`):
  - The page loop of `extract_text_from_pdf` is modelled over the text of
    each page.
  - `summarize_pdf` composes extract, clean, chunks of 256 and summarise.
  - The file also holds a worked example, traced through every step.

The summarisation model is a parameter `model: (string, GenerationOptions) ->
string`. The options are `max_length=60, min_length=30, do_sample=False`.
Because the parameter is a total function, the same chunk always gets the
same summary. That is the determinism greedy decoding provides.

Three properties of the code are easy to get wrong:

- The character filter of step 2 keeps only ASCII letters and digits. Its
  only white-space characters are the space and the newline, so tabs and
  carriage returns are deleted, not collapsed.
- The cleaned text can hold `".\n "`, two white-space characters in a row.
  `CleanTextSpacing` proves that this pair is the only kind of neighbouring
  white space that can occur.
- Cleaning twice is not the same as cleaning once. `CleanTextNotIdempotent`
  shows `"a.b"` cleaning to `"a.\nb"` and then to `"a.\n b"`. What does hold
  is `CleanTextStable`: rerunning steps 1 and 2 on cleaned text removes
  nothing. `CleanTwiceNonSpace` adds that a second cleaning changes white
  space only.

## Model

| member | source | states |
|---|---|---|
| Text.IsSpace | summarizer.py:223 | models `\s` of a `str` pattern and `str.isspace`: TAB to CR, FS to space, U+0085, U+00A0, U+1680, U+2000 to U+200A, U+2028, U+2029, U+202F, U+205F and U+3000 |
| Text.IsDigit | summarizer.py:221 | models `\d` as the ASCII digits `0` to `9` |
| Text.IsAllowed | summarizer.py:222 | models the class `a-zA-Z0-9.,!? \n`: ASCII letters and digits, `.`, `,`, `!`, `?`, the space and the newline |
| Text.StripLeft | summarizer.py:209 | defines `lstrip`: the text from its first non-white-space character on |
| Text.StripRight | summarizer.py:209 | defines `rstrip`: the text up to and including its last non-white-space character |
| Text.Strip | summarizer.py:209 | defines `strip` as `rstrip` after `lstrip` |
| Text.StripSlice | summarizer.py:223 | `strip` returns a slice of its input whose first and last characters are not white space |
| Text.StripNonSpace | summarizer.py:223 | `strip` removes white space only: the non-white-space characters are those of the input, in order |
| Text.StripLeftStep | summarizer.py:209 | `lstrip` of a text that starts with white space is `lstrip` of the text without that character |
| Text.StripRightStep | summarizer.py:209 | `rstrip` of a text that ends in white space is `rstrip` of the text without that character |
| Text.JoinAppend | summarizer.py:246 | joining two non-empty runs of parts gives the two joins with exactly one separator between them, in order |
| Text.JoinLength | summarizer.py:246 | the joined text has the length of all parts plus one separator per gap |
| Text.Join | summarizer.py:246 | defines `sep.join(parts)`: the parts in order with `sep` between neighbours |
| Text.Words | summarizer.py:223 | defines `s.split()`: the maximal runs of non-white-space characters, in order |
| Text.WordsShape | summarizer.py:223 | every word of `s.split()` is non-empty and holds no white space |
| Text.WordsText | summarizer.py:223 | the words concatenate to the text's non-white-space characters, in order |
| Text.StripLeftAppend | summarizer.py:209 | `lstrip` of a concatenation is `lstrip` of the second part when the first is all white space, and otherwise `lstrip` of the first part followed by the second |
| Text.StripRightAppend | summarizer.py:223 | `rstrip` of a concatenation only touches the second part when that part is not all white space |
| TextCleaner.IsMarker | summarizer.py:221 | a word of `\[\d+\]` or `\(\d+\)`: an opening bracket, one or more ASCII digits, the matching closing bracket |
| TextCleaner.MarkerLength | summarizer.py:221 | defines the length of the citation pattern's match at the start of the text: an opening bracket, at least one digit, the matching closing bracket; 0 when nothing matches there |
| TextCleaner.MarkerLengthMatches | summarizer.py:221 | a prefix of the text is a citation marker exactly when its length is the one `MarkerLength` reports |
| TextCleaner.RemoveCitations | summarizer.py:221 | step 1 never lengthens the text |
| TextCleaner.RemoveCitationsFixpoint | summarizer.py:221 | step 1 leaves a text unchanged exactly when no marker starts anywhere in it |
| TextCleaner.MarkerFreeTail | summarizer.py:221 | where no marker starts at the front, the text is marker-free exactly when the rest after the first character is |
| TextCleaner.RemoveCitationsKeepsText | summarizer.py:221 | step 1 keeps the number of occurrences of every character other than brackets, parentheses and digits |
| TextCleaner.RemoveCitationsOrder | summarizer.py:221 | what step 1 leaves is a subsequence of its input: characters are only deleted, never added or reordered |
| TextCleaner.NoOpeningMarkerFree | summarizer.py:221 | a text without `[` and `(` holds no marker |
| TextCleaner.RemoveCitationsSinglePass | summarizer.py:221 | the pass is single and non-overlapping: `[[1]2]` becomes `[2]`, and the marker formed by the deletion stays |
| TextCleaner.RemoveCitationsPrefix | summarizer.py:221 | text without an opening bracket passes step 1 unchanged, whatever follows it |
| TextCleaner.RemoveCitationsKeep | summarizer.py:221 | a prefix at none of whose positions a marker matches is kept verbatim, whatever follows it; with the marker law this fixes step 1 on every input |
| TextCleaner.RemoveCitationsMarker | summarizer.py:221 | a marker at the front of the text is deleted as a whole |
| TextCleaner.KeepAllowed | summarizer.py:222 | step 2's result holds only allowed characters; the result equals the input exactly when the input is all allowed; every allowed character keeps its number of occurrences |
| TextCleaner.KeepAllowedOrder | summarizer.py:222 | step 2's result is a subsequence of its input; with the counts above it is exactly the allowed characters, in order |
| TextCleaner.KeepAllowedChar | summarizer.py:222 | step 2 keeps a single character exactly when it is allowed |
| TextCleaner.KeepAllowedConcat | summarizer.py:222 | step 2 of a concatenation is step 2 of each part, in order |
| TextCleaner.CollapseWhitespace | summarizer.py:223 | defines `re.sub(r'\s+', ' ', text)`: each maximal run of white space becomes one blank |
| TextCleaner.NormalizeWhitespace | summarizer.py:223 | defines step 3 as `strip` after collapsing |
| TextCleaner.CollapseShape | summarizer.py:223 | after collapsing, every white-space character is a blank and no two white-space characters are neighbours |
| TextCleaner.CollapseNonSpace | summarizer.py:223 | collapsing changes white space only |
| TextCleaner.CollapseBlanks | summarizer.py:223 | collapsing leaves alone a text whose white space is single blanks |
| TextCleaner.NormalizeWhitespaceShape | summarizer.py:223 | step 3 gives single blanks between words and none at the ends, and keeps the non-white-space characters in order |
| TextCleaner.NormalizeWhitespaceWords | summarizer.py:223 | step 3 equals `" ".join(text.split())`: the words of the text, in order, with exactly one blank between neighbours |
| TextCleaner.CollapseWord | summarizer.py:223 | a word passes collapsing unchanged, whatever follows it |
| TextCleaner.StripLeftCollapse | summarizer.py:223 | collapsing and `lstrip` commute |
| TextCleaner.CollapseStrippedWords | summarizer.py:223 | `rstrip` of the collapsed `lstrip` of a text is its words joined with one blank |
| TextCleaner.StripNormal | summarizer.py:223 | stripping a collapsed text gives the normal form of step 3 |
| TextCleaner.NormalizeWhitespaceFixpoint | summarizer.py:223 | step 3 leaves a text in normal form unchanged |
| TextCleaner.NormalizeWhitespaceIdempotent | summarizer.py:223 | step 3 is idempotent, and it changes a text exactly when the text is not in normal form |
| TextCleaner.CollapseAllowed | summarizer.py:222-223 | collapsing keeps the text inside the allowed character class |
| TextCleaner.NormalizeAllowed | summarizer.py:222-223 | step 3 keeps the text inside the allowed character class |
| TextCleaner.CollapsePrefix | summarizer.py:223 | a piece in normal form that ends in a word passes collapsing unchanged, whatever follows it |
| TextCleaner.CollapseLineBreak | summarizer.py:223 | a single line break between two runs in normal form becomes one blank |
| TextCleaner.BreakSentences | summarizer.py:224 | step 4 adds exactly one character per `.` and keeps the first character |
| TextCleaner.JoinBreakSentences | summarizer.py:224 | step 4 loses nothing: dropping the newline after each `.` gives the text back |
| TextCleaner.BreakSentencesDots | summarizer.py:224 | after step 4 every `.` is immediately followed by a newline |
| TextCleaner.BreakSentencesNewlines | summarizer.py:224 | on a text without newlines, every newline after step 4 follows a `.` |
| TextCleaner.BreakSentencesSpacing | summarizer.py:224 | on text whose white space is single blanks, step 4 creates neighbouring white space only as a newline followed by a blank |
| TextCleaner.BreakAllowed | summarizer.py:224 | step 4 keeps the text inside the allowed character class |
| TextCleaner.BreakSentencesConcat | summarizer.py:224 | step 4 acts on each piece of a text separately |
| TextCleaner.BreakSentencesNoDot | summarizer.py:224 | step 4 leaves a text without `.` unchanged |
| TextCleaner.Collapsed | summarizer.py:221-223 | defines the text after steps 1 to 3, in that order |
| TextCleaner.CleanText | summarizer.py:211-225 | defines `clean_text` as step 4 applied to `Collapsed` |
| TextCleaner.CleanTextAllowed | summarizer.py:221-224 | cleaned text holds only `a-zA-Z0-9.,!?`, blank and newline; in particular no `[`, `]`, `(` or `)` |
| TextCleaner.CleanTextSentences | summarizer.py:223-224 | in cleaned text every `.` is followed by a newline and every newline follows a `.`; the length is the step-3 length plus the number of `.` in it |
| TextCleaner.CleanTextSpacing | summarizer.py:223-224 | after step 3 there is no neighbouring white space and none at the ends; cleaned text does not start with white space, never has two neighbouring blanks, and has neighbouring white space only as newline then blank |
| TextCleaner.CleanTextStable | summarizer.py:221-222 | running steps 1 and 2 on cleaned text changes nothing: the removal steps delete nothing on a second cleaning |
| TextCleaner.BreakSentencesNonSpace | summarizer.py:224 | step 4 inserts white space only: the non-white-space characters are those of its input, in order |
| TextCleaner.CleanTwiceNonSpace | summarizer.py:211-225 | a second cleaning changes white space only: its non-white-space characters are those of the cleaned text, in order |
| TextCleaner.CleanTextNotIdempotent | summarizer.py:221-224 | `"a.b"` cleans to `"a.\nb"`, which cleans to `"a.\n b"`, so cleaning is not idempotent |
| ChunkSplitter.Slice | summarizer.py:242 | defines Python's `text[lo:hi]`, with bounds clamped to the text |
| ChunkSplitter.Chunk | summarizer.py:242 | defines chunk `i` as `text[i*size:(i+1)*size]` |
| ChunkSplitter.Chunks | summarizer.py:238-242 | defines the chunk sequence: chunk `i` for each `i` in `range(num_chunks)` |
| ChunkSplitter.NumChunks | summarizer.py:238 | the chunk count is the least `k` with `k * size >= len(text)`, the ceiling of the division |
| ChunkSplitter.NumChunksUnique | summarizer.py:238 | any count that covers the text while one less does not is the chunk count |
| ChunkSplitter.ChunkBounds | summarizer.py:242 | chunk `i` starts at `i * size` inside the text and ends `size` later or at the end of the text |
| ChunkSplitter.ChunksShape | summarizer.py:238-242 | the number of chunks is the ceiling of `len(text) / size`; every chunk is non-empty and at most `size` long; all but the last are exactly `size` long |
| ChunkSplitter.ChunksPrefix | summarizer.py:238-242 | the first `k` chunks concatenate to the first `k * size` characters of the text |
| ChunkSplitter.ChunksConcat | summarizer.py:238-242 | the chunks, concatenated in order, give back the text exactly |
| ChunkSplitter.ChunksEmpty | summarizer.py:238-242 | an empty text has no chunks |
| ChunkSplitter.ChunksSingle | summarizer.py:238-242 | a non-empty text no longer than one chunk is its own single chunk |
| ChunkSplitter.ChunksAppend | summarizer.py:238-242 | when the first part is a whole number of chunks long, the chunks of a concatenation are the chunks of the first part followed by those of the second |
| ChunkSplitter.ChunksPartition | summarizer.py:238-242 | the chunks cut the text into full pieces and one last, shorter, non-empty piece |
| ChunkSplitter.PartitionIsChunks | summarizer.py:238-242 | that partition is unique: any other such partition of the text is the chunk sequence |
| SummaryAggregator.CHUNK_OPTIONS | summarizer.py:243 | the generation options of every model call: `max_length=60`, `min_length=30`, `do_sample=False` |
| SummaryAggregator.ChunkSummaries | summarizer.py:241-244 | defines the list the loop builds: the model's summary of each chunk, in chunk order |
| SummaryAggregator.CombinedSummary | summarizer.py:246 | defines the result as those summaries joined with one space |
| SummaryAggregator.SummarizeTextInChunks | summarizer.py:238-246 | the loop's result is the model's summary of each chunk, in chunk order, joined with one space; the model is called once per chunk, on exactly the chunks, in order |
| SummaryAggregator.CombinedSummaryEmpty | summarizer.py:238-246 | an empty text gives the empty summary |
| SummaryAggregator.CombinedSummarySingle | summarizer.py:238-246 | a non-empty text that fits in one chunk gives the model's summary of the whole text, verbatim |
| SummaryAggregator.CombinedSummaryAppend | summarizer.py:238-246 | when split at a chunk boundary, the summary is the summary of the front, one space, then the summary of the rest |
| SummaryAggregator.CombinedSummarySnoc | summarizer.py:238-246 | the summary of whole chunks followed by a last piece is their summary, one space, and the model's summary of the last piece |
| SummarizationPipeline.MAX_CHUNK_SIZE | summarizer.py:227 | the chunk size `summarize_pdf` uses, the default 256 of `summarize_text_in_chunks` |
| SummarizationPipeline.PagesText | summarizer.py:206-208 | defines the text the page loop accumulates: each page followed by a newline, in page order |
| SummarizationPipeline.ExtractText | summarizer.py:205-209 | the page loop appends each page and a newline, and the result is that text stripped |
| SummarizationPipeline.PagesTextJoin | summarizer.py:206-208 | the accumulated page text is the pages joined by newlines, plus one final newline |
| SummarizationPipeline.StripTrailingNewline | summarizer.py:208-209 | the final newline makes no difference once the text is stripped |
| SummarizationPipeline.ExtractedText | summarizer.py:205-209 | the extracted text is the pages joined by newlines, stripped at both ends |
| SummarizationPipeline.DocumentSummary | summarizer.py:258-261 | defines the result of `summarize_pdf` for an extracted text: the chunked summary, with chunks of 256, of its cleaned text |
| SummarizationPipeline.SummarizePdf | summarizer.py:258-261 | the result is the chunked summary, with chunks of 256, of the cleaned text of the pages joined by newlines and stripped; the model is called once on each of its 256-character chunks, in order |
| SummarizationPipeline.PipelineChunks | summarizer.py:238-242 | each chunk the model receives is non-empty, at most 256 characters long and all allowed characters, and the chunks concatenate to the cleaned text |
| SummarizationPipeline.RemoveTwoMarkers | summarizer.py:221 | step 1 deletes both markers of a text made of plain pieces and two markers, and keeps the pieces in order |
| SummarizationPipeline.KeepAllowedPieces | summarizer.py:222 | step 2 leaves a text made of two allowed pieces unchanged |
| SummarizationPipeline.NormalizeDoubleBlank | summarizer.py:223 | step 3 turns a double blank between two runs in normal form into one blank |
| SummarizationPipeline.CollapseDoubleBlank | summarizer.py:223 | collapsing turns a leading double blank before a run in normal form into one blank |
| SummarizationPipeline.BreakOneSentence | summarizer.py:224 | step 4 puts a newline after the final `.` of a sentence without inner dots |
| SummarizationPipeline.BreakTwoSentences | summarizer.py:224 | step 4 puts a newline after each of two sentences without inner dots |
| SummarizationPipeline.ExampleCitations | summarizer.py:221 | in `Neural nets learn[1] patterns. (2) They generalize well.` both markers are deleted and the rest stays |
| SummarizationPipeline.ExampleAllowed | summarizer.py:222 | step 2 leaves the example's text unchanged |
| SummarizationPipeline.ExampleWhitespace | summarizer.py:223 | step 3 collapses the double blank the second marker leaves behind |
| SummarizationPipeline.ExampleSentences | summarizer.py:224 | step 4 breaks the example after each of its two sentences |
| SummarizationPipeline.ExampleCleaning | summarizer.py:221-224 | the example cleans to `Neural nets learn patterns.\n They generalize well.\n` |
| SummarizationPipeline.ExampleSummary | summarizer.py:258-261 | the cleaned example fits in one chunk, so its summary is the model's answer for the whole cleaned text, verbatim |

## Left out

- `load_config` and the module-level `config` (summarizer.py:12-26) read a YAML file. That is I/O and is not modelled.
- `PDFExtractor` (summarizer.py:29-92) and `WebScraper` (summarizer.py:97-177) wrap PyPDF2, `requests` and BeautifulSoup and write JSON files. They are library and network plumbing and are not modelled.
- Model loading (summarizer.py:193) and inference (summarizer.py:243) are a transformers pipeline. Inference is the `model` parameter.
  - The options 60, 30 and `do_sample=False` are passed to the parameter but have no meaning inside the model.
  - `clean_up_tokenization_spaces=True` and the `[0]['summary_text']` lookup are folded into what the parameter returns.
- The PDF library calls `fitz.open` and `page.get_text("text")` (summarizer.py:205-208) are foreign. The document is given as the text of its pages, in page order.
- Errors are not modelled. The code has no error path of its own: an exception from the PDF library or the model propagates to the caller.
- The `__main__` block (summarizer.py:265-280) only prints.
- Concurrency: the code calls the model one chunk at a time, so no concurrent model is needed.
- ChunkSplitter.NumChunks: `math.ceil(len(text) / max_chunk_size)` divides in floating point. The model uses the exact integer ceiling, which agrees for every text shorter than 2^53 characters.
- SummaryAggregator.SummarizeTextInChunks: a chunk size of at most 0 is excluded by a precondition. In the code, 0 raises `ZeroDivisionError` and a negative size gives `""`.
- TextCleaner.RemoveCitations: Python's `\d` also matches non-ASCII decimal digits. The model matches the ASCII digits `0-9` only.
- White space (`\s`, `str.isspace`, `strip`) is modelled with Python's full set of white-space characters. After step 2, only the space and the newline remain.
