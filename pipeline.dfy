/**
 * `TextSummarizer.summarize_pdf`: the page text of the document is extracted,
 * cleaned, cut into chunks of 256 characters and summarised chunk by chunk.
 * The PDF library is not modelled: the document is given as the text of its
 * pages, in page order.
 */
module SummarizationPipeline {
  import opened Text
  import opened TextCleaner
  import opened ChunkSplitter
  import opened SummaryAggregator

  /** The chunk size `summarize_pdf` uses (the default of
      `summarize_text_in_chunks`). */
  const MAX_CHUNK_SIZE: nat := 256

  // ---------------------------------------------------------------------
  // extract_text_from_pdf

  /** The text the page loop accumulates: every page followed by a newline. */
  function PagesText(pages: seq<string>): string {
    if pages == [] then [] else PagesText(pages[..|pages| - 1]) + pages[|pages| - 1] + "\n"
  }

  /** `extract_text_from_pdf`, from the text of each page on: append every
      page and a newline, then strip the whole. */
  method ExtractText(pages: seq<string>) returns (text: string)
    ensures text == Strip(PagesText(pages))
  {
    text := "";
    for i := 0 to |pages|
      invariant text == PagesText(pages[..i])
    {
      assert pages[..i + 1][..i] == pages[..i];
      text := text + pages[i] + "\n";
    }
    assert pages[..|pages|] == pages;
    text := Strip(text);
  }

  /** The accumulated text is the pages joined by newlines, plus one more. */
  lemma {:induction false} PagesTextJoin(pages: seq<string>)
    requires pages != []
    ensures PagesText(pages) == Join(pages, "\n") + "\n"
  {
    var n := |pages|;
    if n > 1 {
      var init := pages[..n - 1];
      PagesTextJoin(init);
      assert init + [pages[n - 1]] == pages;
      JoinAppend(init, [pages[n - 1]], "\n");
    }
  }

  /** A newline at the end makes no difference once the text is stripped. */
  lemma StripTrailingNewline(x: string)
    ensures Strip(x + "\n") == Strip(x)
  {
    StripLeftAppend(x, "\n");
    var l := StripLeft(x);
    if l != [] {
      assert (l + "\n")[..|l|] == l;
    } else {
      assert "\n"[1..] == [];
    }
  }

  /** So the extracted text is the pages joined by newlines and stripped at
      both ends. */
  lemma ExtractedText(pages: seq<string>)
    ensures Strip(PagesText(pages)) == Strip(Join(pages, "\n"))
  {
    if pages != [] {
      PagesTextJoin(pages);
      StripTrailingNewline(Join(pages, "\n"));
    }
  }

  // ---------------------------------------------------------------------
  // summarize_pdf

  /** What `summarize_pdf` returns for a document whose extracted text is
      `raw`. */
  function DocumentSummary(raw: string, model: Model): string {
    CombinedSummary(CleanText(raw), MAX_CHUNK_SIZE, model)
  }

  /** `summarize_pdf`: extract, clean, summarise in chunks of 256. The
      model is called once on each 256-character chunk of the cleaned text,
      in order, as the ghost `calls` records. */
  method SummarizePdf(pages: seq<string>, model: Model)
    returns (summary: string, ghost calls: seq<string>)
    ensures summary == DocumentSummary(Strip(Join(pages, "\n")), model)
    ensures calls == Chunks(CleanText(Strip(Join(pages, "\n"))), MAX_CHUNK_SIZE)
  {
    var text := ExtractText(pages);
    ExtractedText(pages);
    var cleanedText := CleanText(text);
    summary, calls := SummarizeTextInChunks(cleanedText, MAX_CHUNK_SIZE, model);
  }

  /** What the model is given: the cleaned text cut into pieces of at most
      256 characters, which concatenate back to the cleaned text and hold only
      allowed characters. */
  lemma PipelineChunks(raw: string)
    ensures var cs := Chunks(CleanText(raw), MAX_CHUNK_SIZE);
      && Concat(cs) == CleanText(raw)
      && forall i :: 0 <= i < |cs| ==> 0 < |cs[i]| <= MAX_CHUNK_SIZE && AllAllowed(cs[i])
  {
    var text := CleanText(raw);
    var cs := Chunks(text, MAX_CHUNK_SIZE);
    ChunksConcat(text, MAX_CHUNK_SIZE);
    ChunksShape(text, MAX_CHUNK_SIZE);
    CleanTextAllowed(raw);
    forall i | 0 <= i < |cs| ensures AllAllowed(cs[i]) {
      ChunkBounds(text, MAX_CHUNK_SIZE, i);
      var hi := if (i + 1) * MAX_CHUNK_SIZE < |text| then (i + 1) * MAX_CHUNK_SIZE else |text|;
      SliceKeepsShape(text, i * MAX_CHUNK_SIZE, hi);
    }
  }

  // ---------------------------------------------------------------------
  // A worked example
  //
  // The facts about the example's literal pieces are kept in small lemmas
  // of their own; the steps themselves are general lemmas about texts of the
  // example's shape.

  /** `Neural nets learn[1] patterns. (2) They generalize well.`, in the
      pieces around its two markers. */
  const EXAMPLE_RAW := "Neural nets learn" + "[1]" + " patterns. " + "(2)" + " They generalize well."
  /** After steps 1 and 2: `Neural nets learn patterns.  They generalize well.` */
  const EXAMPLE_CITED := "Neural nets learn" + " patterns. " + " They generalize well."
  /** After step 3. */
  const EXAMPLE_COLLAPSED := "Neural nets learn patterns. They generalize well."
  const EXAMPLE_CLEAN := "Neural nets learn patterns.\n They generalize well.\n"

  /** Step 1 on text made of plain pieces and two markers: the markers go,
      the pieces stay in order. */
  lemma RemoveTwoMarkers(a: string, m1: string, b: string, m2: string, c: string, raw: string)
    requires NoOpening(a) && IsMarker(m1) && NoOpening(b) && IsMarker(m2) && NoOpening(c)
    requires raw == a + m1 + b + m2 + c
    ensures RemoveCitations(raw) == a + b + c
  {
    assert raw == a + (m1 + (b + (m2 + c)));
    RemoveCitationsPrefix(a, m1 + (b + (m2 + c)));
    RemoveCitationsMarker(m1, b + (m2 + c));
    RemoveCitationsPrefix(b, m2 + c);
    RemoveCitationsMarker(m2, c);
    RemoveCitationsPrefix(c, []);
    assert c + [] == c;
    assert a + (b + c) == a + b + c;
  }

  /** Step 2 leaves a text of allowed pieces alone. */
  lemma KeepAllowedPieces(p: string, q: string, s: string)
    requires AllAllowed(p) && AllAllowed(q) && s == p + q
    ensures KeepAllowed(s) == s
  {
  }

  /** Step 3 on two blank-separated runs in normal form: a double blank
      between them collapses to one. */
  lemma NormalizeDoubleBlank(p: string, w: string, s: string)
    requires p != [] && SpacesAreBlanks(p) && NoAdjacentSpace(p)
    requires !IsSpace(p[0]) && !IsSpace(p[|p| - 1])
    requires w != [] && SpacesAreBlanks(w) && NoAdjacentSpace(w)
    requires !IsSpace(w[0]) && !IsSpace(w[|w| - 1])
    requires s == p + "  " + w
    ensures NormalizeWhitespace(s) == p + " " + w
  {
    var q := "  " + w;
    assert s == p + q;
    CollapsePrefix(p, q);
    CollapseDoubleBlank(w);
    var t := p + " " + w;
    assert p + ([' '] + w) == t;
    assert t[0] == p[0] && t[|t| - 1] == w[|w| - 1];
    StripTrimmed(t);
  }

  lemma CollapseDoubleBlank(w: string)
    requires w != [] && SpacesAreBlanks(w) && NoAdjacentSpace(w) && !IsSpace(w[0])
    ensures CollapseWhitespace("  " + w) == [' '] + w
  {
    var q := "  " + w;
    assert q[1..] == " " + w;
    assert StripLeft(q[1..]) == w by {
      assert (" " + w)[1..] == w;
    }
    CollapseBlanks(w);
  }

  /** Step 4 on one sentence without inner dots. */
  lemma BreakOneSentence(s1: string)
    requires forall i :: 0 <= i < |s1| ==> s1[i] != '.'
    ensures BreakSentences(s1 + ".") == s1 + ".\n"
  {
    BreakSentencesConcat(s1, ".");
    BreakSentencesNoDot(s1);
    assert BreakSentences(".") == ".\n" by {
      assert "."[1..] == [];
    }
  }

  /** Step 4 on two sentences without inner dots. */
  lemma BreakTwoSentences(s1: string, s2: string, s: string)
    requires forall i :: 0 <= i < |s1| ==> s1[i] != '.'
    requires forall i :: 0 <= i < |s2| ==> s2[i] != '.'
    requires s == s1 + "." + s2 + "."
    ensures BreakSentences(s) == s1 + ".\n" + s2 + ".\n"
  {
    var u, v := s1 + ".", s2 + ".";
    assert s == u + v;
    BreakSentencesConcat(u, v);
    BreakOneSentence(s1);
    BreakOneSentence(s2);
    assert (s1 + ".\n") + (s2 + ".\n") == s1 + ".\n" + s2 + ".\n";
  }

  lemma ExampleRawMarkers()
    ensures NoOpening("Neural nets learn") && NoOpening(" patterns. ")
    ensures NoOpening(" They generalize well.")
    ensures IsMarker("[1]") && IsMarker("(2)")
  {
  }

  /** Step 1 on the example: both markers go, the rest stays. */
  lemma ExampleCitations()
    ensures RemoveCitations(EXAMPLE_RAW) == EXAMPLE_CITED
  {
    ExampleRawMarkers();
    RemoveTwoMarkers("Neural nets learn", "[1]", " patterns. ", "(2)", " They generalize well.", EXAMPLE_RAW);
  }

  lemma ExampleCitedPieces()
    ensures EXAMPLE_CITED == "Neural nets learn patterns." + "  They generalize well."
  {
  }

  lemma ExampleCitedAllowed()
    ensures AllAllowed("Neural nets learn patterns.") && AllAllowed("  They generalize well.")
  {
  }

  /** Step 2 on the example: every character is allowed already. */
  lemma ExampleAllowed()
    ensures KeepAllowed(EXAMPLE_CITED) == EXAMPLE_CITED
  {
    ExampleCitedPieces();
    ExampleCitedAllowed();
    KeepAllowedPieces("Neural nets learn patterns.", "  They generalize well.", EXAMPLE_CITED);
  }

  lemma ExampleBlankSplit()
    ensures EXAMPLE_CITED == "Neural nets learn patterns." + "  " + "They generalize well."
  {
  }

  lemma ExampleCollapsedSplit()
    ensures EXAMPLE_COLLAPSED == "Neural nets learn patterns." + " " + "They generalize well."
  {
  }

  lemma ExampleBlankFront()
    ensures var p := "Neural nets learn patterns.";
      p != [] && SpacesAreBlanks(p) && NoAdjacentSpace(p) && !IsSpace(p[0]) && !IsSpace(p[|p| - 1])
  {
  }

  lemma ExampleBlankBack()
    ensures var w := "They generalize well.";
      w != [] && SpacesAreBlanks(w) && NoAdjacentSpace(w) && !IsSpace(w[0]) && !IsSpace(w[|w| - 1])
  {
  }

  /** Step 3 on the example: the double blank left by the marker collapses. */
  lemma ExampleWhitespace()
    ensures NormalizeWhitespace(EXAMPLE_CITED) == EXAMPLE_COLLAPSED
  {
    ExampleBlankSplit();
    ExampleCollapsedSplit();
    ExampleBlankFront();
    ExampleBlankBack();
    NormalizeDoubleBlank("Neural nets learn patterns.", "They generalize well.", EXAMPLE_CITED);
  }

  lemma ExampleSentenceSplit()
    ensures EXAMPLE_COLLAPSED == "Neural nets learn patterns" + "." + " They generalize well" + "."
  {
  }

  lemma ExampleCleanSplit()
    ensures EXAMPLE_CLEAN == "Neural nets learn patterns" + ".\n" + " They generalize well" + ".\n"
  {
  }

  lemma ExampleSentenceWords()
    ensures var s1 := "Neural nets learn patterns"; forall i :: 0 <= i < |s1| ==> s1[i] != '.'
    ensures var s2 := " They generalize well"; forall i :: 0 <= i < |s2| ==> s2[i] != '.'
  {
  }

  /** Step 4 on the example. */
  lemma ExampleSentences()
    ensures BreakSentences(EXAMPLE_COLLAPSED) == EXAMPLE_CLEAN
  {
    ExampleSentenceSplit();
    ExampleCleanSplit();
    ExampleSentenceWords();
    BreakTwoSentences("Neural nets learn patterns", " They generalize well", EXAMPLE_COLLAPSED);
  }

  /** The example cleans to one sentence per line. */
  lemma ExampleCleaning()
    ensures CleanText(EXAMPLE_RAW) == EXAMPLE_CLEAN
  {
    ExampleCitations();
    ExampleAllowed();
    ExampleWhitespace();
    ExampleSentences();
  }

  /** The example fits in one chunk, so its summary is the model's answer
      for the whole cleaned text, verbatim. */
  lemma ExampleSummary(model: Model)
    ensures DocumentSummary(EXAMPLE_RAW, model) == model(EXAMPLE_CLEAN, CHUNK_OPTIONS)
  {
    ExampleCleaning();
    CombinedSummarySingle(EXAMPLE_CLEAN, MAX_CHUNK_SIZE, model);
  }
}
