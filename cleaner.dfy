/**
 * `TextSummarizer.clean_text`: four rewrites applied in a fixed order.
 *   1. delete citation markers `[digits]` and `(digits)` (one left-to-right,
 *      non-overlapping pass of the pattern `\[\d+\]|\(\d+\)`);
 *   2. delete every character outside `a-zA-Z0-9.,!? \n`;
 *   3. replace every run of white space by one space, then `strip`;
 *   4. replace every `.` by `.` followed by a newline.
 */
module TextCleaner {
  import opened Text

  // ---------------------------------------------------------------------
  // Step 1: citation markers

  /** Length of the run of ASCII digits at the start of `s`. */
  function DigitRun(s: string): (k: nat)
    ensures k <= |s|
    ensures forall i :: 0 <= i < k ==> IsDigit(s[i])
    ensures k < |s| ==> !IsDigit(s[k])
  {
    if s != [] && IsDigit(s[0]) then 1 + DigitRun(s[1..]) else 0
  }

  /** A complete citation marker: a word of `\[\d+\]|\(\d+\)`. */
  ghost predicate IsMarker(m: string) {
    && |m| >= 3
    && ((m[0] == '[' && m[|m| - 1] == ']') || (m[0] == '(' && m[|m| - 1] == ')'))
    && forall i :: 1 <= i < |m| - 1 ==> IsDigit(m[i])
  }

  function Closing(bracket: char): char {
    if bracket == '[' then ']' else ')'
  }

  /** Length of the marker the pattern matches at the start of `s`; 0 when
      it matches nothing there. */
  function MarkerLength(s: string): (n: nat)
    ensures n <= |s|
    ensures n != 0 ==> n >= 3
  {
    if |s| >= 3 && (s[0] == '[' || s[0] == '(') then
      var k := DigitRun(s[1..]);
      if 1 <= k && k + 1 < |s| && s[k + 1] == Closing(s[0]) then k + 2 else 0
    else 0
  }

  /** `MarkerLength` finds exactly the marker prefixes of `s`: a prefix is a
      marker if and only if its length is the one reported (so at most one
      prefix is a marker, and 0 means none is). */
  lemma MarkerLengthMatches(s: string, k: nat)
    requires 0 < k <= |s|
    ensures IsMarker(s[..k]) <==> k == MarkerLength(s)
  {
  }

  /** No marker starts anywhere in `s`. */
  ghost predicate MarkerFree(s: string) {
    forall i :: 0 <= i < |s| ==> MarkerLength(s[i..]) == 0
  }

  /** Step 1, `re.sub(r'\[\d+\]|\(\d+\)', '', text)`: scan from the left; a
      marker starting at the current position is deleted and the scan goes
      on after it, otherwise the character is kept. */
  function RemoveCitations(s: string): (r: string)
    ensures |r| <= |s|
    decreases |s|
  {
    if s == [] then []
    else
      var n := MarkerLength(s);
      if n > 0 then RemoveCitations(s[n..]) else [s[0]] + RemoveCitations(s[1..])
  }

  /** The pass changes the text exactly when some marker occurs in it. */
  lemma {:induction false} RemoveCitationsFixpoint(s: string)
    ensures RemoveCitations(s) == s <==> MarkerFree(s)
    decreases |s|
  {
    if s == [] {
    } else if MarkerLength(s) > 0 {
      assert s[0..] == s;
      assert |RemoveCitations(s)| < |s|;
    } else {
      RemoveCitationsFixpoint(s[1..]);
      MarkerFreeTail(s);
      var t := RemoveCitations(s[1..]);
      assert RemoveCitations(s) == [s[0]] + t;
      assert [s[0]] + t == s <==> t == s[1..];
    }
  }

  /** Past a position where no marker starts, marker-freedom is that of the
      rest. */
  lemma MarkerFreeTail(s: string)
    requires s != [] && MarkerLength(s) == 0
    ensures MarkerFree(s) <==> MarkerFree(s[1..])
  {
    forall i | 0 <= i < |s| - 1 ensures s[1..][i..] == s[i + 1..] { }
    if MarkerFree(s) {
      assert MarkerFree(s[1..]);
    } else {
      var i :| 0 <= i < |s| && MarkerLength(s[i..]) != 0;
      assert i != 0 by { assert s[0..] == s; }
      assert MarkerLength(s[1..][i - 1..]) != 0;
    }
  }

  /** Only bracket and digit characters are ever deleted by step 1: every
      other character keeps its number of occurrences. */
  lemma {:induction false} RemoveCitationsKeepsText(s: string, c: char)
    requires c != '[' && c != ']' && c != '(' && c != ')' && !IsDigit(c)
    ensures Count(RemoveCitations(s), c) == Count(s, c)
    decreases |s|
  {
    if s != [] {
      var n := MarkerLength(s);
      if n > 0 {
        assert s == s[..n] + s[n..];
        CountConcat(s[..n], s[n..], c);
        MarkerLengthMatches(s, n);
        MarkerCount(s[..n], c);
        RemoveCitationsKeepsText(s[n..], c);
      } else {
        assert s == [s[0]] + s[1..];
        CountConcat([s[0]], s[1..], c);
        CountConcat([s[0]], RemoveCitations(s[1..]), c);
        RemoveCitationsKeepsText(s[1..], c);
      }
    }
  }

  lemma MarkerCount(m: string, c: char)
    requires IsMarker(m)
    requires c != '[' && c != ']' && c != '(' && c != ')' && !IsDigit(c)
    ensures Count(m, c) == 0
  {
    forall i | 0 <= i < |m| ensures m[i] != c {
      if 1 <= i < |m| - 1 {
        assert IsDigit(m[i]);
      }
    }
    NoOccurrence(m, c);
  }

  lemma {:induction false} NoOccurrence(s: string, c: char)
    requires forall i :: 0 <= i < |s| ==> s[i] != c
    ensures Count(s, c) == 0
  {
    if s != [] {
      NoOccurrence(s[1..], c);
    }
  }

  /** No character that could open a citation marker. */
  predicate NoOpening(s: string) {
    forall i :: 0 <= i < |s| ==> s[i] != '[' && s[i] != '('
  }

  /** A text without `[` and `(` holds no marker. */
  lemma NoOpeningMarkerFree(s: string)
    requires NoOpening(s)
    ensures MarkerFree(s)
  {
  }

  /** The pass is a single one: deleting an inner marker can create a new
      one, which stays. */
  lemma RemoveCitationsSinglePass()
    ensures RemoveCitations("[[1]2]") == "[2]"
  {
  }

  /** What step 1 leaves is a subsequence of its input: nothing is added or
      reordered. */
  lemma {:induction false} RemoveCitationsOrder(s: string)
    ensures Subsequence(RemoveCitations(s), s)
    decreases |s|
  {
    if s != [] {
      var n := MarkerLength(s);
      if n > 0 {
        RemoveCitationsOrder(s[n..]);
        SubsequenceDrop(RemoveCitations(s), s, n);
      } else {
        RemoveCitationsOrder(s[1..]);
        var r := RemoveCitations(s);
        assert r[0] == s[0] && r[1..] == RemoveCitations(s[1..]);
      }
    }
  }

  // ---------------------------------------------------------------------
  // Step 2: character filter

  /** Step 2, `re.sub(r'[^a-zA-Z0-9.,!? \n]+', '', text)`: keep exactly the
      allowed characters, in order. */
  function KeepAllowed(s: string): (r: string)
    ensures AllAllowed(r)
    ensures r == s <==> AllAllowed(s)
    ensures forall c :: IsAllowed(c) ==> Count(r, c) == Count(s, c)
  {
    if s == [] then []
    else if IsAllowed(s[0]) then [s[0]] + KeepAllowed(s[1..])
    else KeepAllowed(s[1..])
  }

  /** The filter keeps the allowed characters in their order ... */
  lemma {:induction false} KeepAllowedOrder(s: string)
    ensures Subsequence(KeepAllowed(s), s)
  {
    if s != [] {
      KeepAllowedOrder(s[1..]);
      var r := KeepAllowed(s);
      if IsAllowed(s[0]) {
        assert r[0] == s[0] && r[1..] == KeepAllowed(s[1..]);
      }
    }
  }

  /** ... it works character by character ... */
  lemma KeepAllowedChar(c: char)
    ensures KeepAllowed([c]) == if IsAllowed(c) then [c] else []
  {
    assert [c][1..] == [];
  }

  /** ... and so it acts on each piece of a text separately. */
  lemma {:induction false} KeepAllowedConcat(a: string, b: string)
    ensures KeepAllowed(a + b) == KeepAllowed(a) + KeepAllowed(b)
  {
    if a == [] {
      assert a + b == b;
    } else {
      assert (a + b)[0] == a[0] && (a + b)[1..] == a[1..] + b;
      KeepAllowedConcat(a[1..], b);
    }
  }

  // ---------------------------------------------------------------------
  // Step 3: white space

  /** Every white-space character is a plain space. */
  ghost predicate SpacesAreBlanks(s: string) {
    forall i :: 0 <= i < |s| && IsSpace(s[i]) ==> s[i] == ' '
  }

  /** The shape step 3 produces: single blanks between words, none at the
      ends. */
  ghost predicate Normalized(s: string) {
    SpacesAreBlanks(s) && NoAdjacentSpace(s) && Trimmed(s)
  }

  /** `re.sub(r'\s+', ' ', text)`: replace every maximal run of white space
      by a single space. */
  function CollapseWhitespace(s: string): string
    decreases |s|
  {
    if s == [] then []
    else if IsSpace(s[0]) then [' '] + CollapseWhitespace(StripLeft(s[1..]))
    else [s[0]] + CollapseWhitespace(s[1..])
  }

  /** Collapsing leaves only single blanks as white space. */
  lemma {:induction false} CollapseShape(s: string)
    ensures SpacesAreBlanks(CollapseWhitespace(s)) && NoAdjacentSpace(CollapseWhitespace(s))
    decreases |s|
  {
    if s != [] {
      var t := if IsSpace(s[0]) then StripLeft(s[1..]) else s[1..];
      var p := if IsSpace(s[0]) then " " else [s[0]];
      CollapseShape(t);
      var rest := CollapseWhitespace(t);
      assert CollapseWhitespace(s) == p + rest;
      assert IsSpace(s[0]) ==> t == [] || !IsSpace(t[0]);
      forall i | 0 <= i < |p + rest| ensures IsSpace((p + rest)[i]) ==> (p + rest)[i] == ' ' {
        if i > 0 {
          assert (p + rest)[i] == rest[i - 1];
        }
      }
      forall i | 0 <= i < |p + rest| - 1 ensures !(IsSpace((p + rest)[i]) && IsSpace((p + rest)[i + 1])) {
        if i > 0 {
          assert (p + rest)[i] == rest[i - 1];
        }
        assert (p + rest)[i + 1] == rest[i];
      }
    }
  }

  /** Collapsing changes only white space. */
  lemma {:induction false} CollapseNonSpace(s: string)
    ensures NonSpace(CollapseWhitespace(s)) == NonSpace(s)
    decreases |s|
  {
    if s != [] {
      if IsSpace(s[0]) {
        CollapseNonSpace(StripLeft(s[1..]));
        StripLeftNonSpace(s[1..]);
        NonSpaceConcat(" ", CollapseWhitespace(StripLeft(s[1..])));
      } else {
        CollapseNonSpace(s[1..]);
        NonSpaceConcat([s[0]], CollapseWhitespace(s[1..]));
      }
    }
  }

  /** Step 3, `re.sub(r'\s+', ' ', text).strip()`. */
  function NormalizeWhitespace(s: string): string {
    Strip(CollapseWhitespace(s))
  }

  /** Step 3 brings any text into normal form and changes only white space. */
  lemma NormalizeWhitespaceShape(s: string)
    ensures Normalized(NormalizeWhitespace(s))
    ensures NonSpace(NormalizeWhitespace(s)) == NonSpace(s)
  {
    var c := CollapseWhitespace(s);
    CollapseShape(s);
    StripNormal(c);
    CollapseNonSpace(s);
    StripNonSpace(c);
  }

  /** Stripping a collapsed text finishes the normal form. */
  lemma StripNormal(c: string)
    requires SpacesAreBlanks(c) && NoAdjacentSpace(c)
    ensures Normalized(Strip(c))
  {
  }

  lemma ConcatAllowed(a: string, b: string)
    requires AllAllowed(a) && AllAllowed(b)
    ensures AllAllowed(a + b)
  {
  }

  /** A slice of a text keeps the text's character class and spacing. */
  lemma SliceKeepsShape(c: string, lo: nat, hi: nat)
    requires lo <= hi <= |c|
    ensures AllAllowed(c) ==> AllAllowed(c[lo..hi])
    ensures SpacesAreBlanks(c) ==> SpacesAreBlanks(c[lo..hi])
    ensures NoAdjacentSpace(c) ==> NoAdjacentSpace(c[lo..hi])
  {
  }

  /** Text already in normal form is left alone by step 3 ... */
  lemma NormalizeWhitespaceFixpoint(s: string)
    requires Normalized(s)
    ensures NormalizeWhitespace(s) == s
  {
    CollapseBlanks(s);
    StripTrimmed(s);
  }

  lemma {:induction false} CollapseBlanks(s: string)
    requires SpacesAreBlanks(s) && NoAdjacentSpace(s)
    ensures CollapseWhitespace(s) == s
  {
    if s != [] {
      assert SpacesAreBlanks(s[1..]) && NoAdjacentSpace(s[1..]);
      CollapseBlanks(s[1..]);
      if IsSpace(s[0]) {
        assert s[1..] != [] ==> !IsSpace(s[1..][0]);
        assert StripLeft(s[1..]) == s[1..];
      }
    }
  }

  /** ... so step 3 is idempotent, and it changes a text exactly when the
      text is not in normal form. */
  lemma NormalizeWhitespaceIdempotent(s: string)
    ensures NormalizeWhitespace(NormalizeWhitespace(s)) == NormalizeWhitespace(s)
    ensures NormalizeWhitespace(s) == s <==> Normalized(s)
  {
    NormalizeWhitespaceShape(s);
    NormalizeWhitespaceFixpoint(NormalizeWhitespace(s));
    if Normalized(s) {
      NormalizeWhitespaceFixpoint(s);
    }
  }

  /** Step 3 is Python's `" ".join(text.split())`: the words of the text,
      in order, with exactly one blank between two neighbours. */
  lemma NormalizeWhitespaceWords(s: string)
    ensures NormalizeWhitespace(s) == Join(Words(s), " ")
  {
    StripLeftCollapse(s);
    CollapseStrippedWords(s);
  }

  /** A word passes collapsing unchanged, whatever follows it. */
  lemma CollapseWord(w: string, r: string)
    requires w != [] && forall i :: 0 <= i < |w| ==> !IsSpace(w[i])
    ensures CollapseWhitespace(w + r) == w + CollapseWhitespace(r)
  {
    assert SpacesAreBlanks(w) && NoAdjacentSpace(w);
    CollapsePrefix(w, r);
  }

  /** Collapsing and `lstrip` commute. */
  lemma StripLeftCollapse(s: string)
    ensures StripLeft(CollapseWhitespace(s)) == CollapseWhitespace(StripLeft(s))
  {
    if s != [] && IsSpace(s[0]) {
      var t := StripLeft(s[1..]);
      var c := CollapseWhitespace(t);
      StripLeftStep(s);
      StripLeftStep([' '] + c);
      assert ([' '] + c)[1..] == c;
      if t != [] {
        assert t[0] == s[1..][LeadingSpace(s[1..])];
        assert c[0] == t[0];
      }
    } else if s != [] {
      assert CollapseWhitespace(s)[0] == s[0];
    }
  }

  /** The induction behind `NormalizeWhitespaceWords`, word by word. */
  lemma {:induction false} CollapseStrippedWords(s: string)
    ensures StripRight(CollapseWhitespace(StripLeft(s))) == Join(Words(s), " ")
    decreases |s|
  {
    var t := StripLeft(s);
    if t != [] {
      var k := WordLength(t);
      var w, rest := t[..k], t[k..];
      assert t[0] == s[LeadingSpace(s)];
      assert t == w + rest;
      CollapseWord(w, rest);
      CollapseStrippedWords(rest);
      WordThenRest(w, rest);
    }
  }

  /** One word followed by the rest of the text. */
  lemma WordThenRest(w: string, rest: string)
    requires w != [] && forall i :: 0 <= i < |w| ==> !IsSpace(w[i])
    requires rest != [] ==> IsSpace(rest[0])
    requires StripRight(CollapseWhitespace(StripLeft(rest))) == Join(Words(rest), " ")
    ensures StripRight(w + CollapseWhitespace(rest)) == Join([w] + Words(rest), " ")
  {
    if rest == [] {
      assert w + [] == w && Words(rest) == [];
      assert w[..|w|] == w;
    } else {
      var u := StripLeft(rest);
      var cu := CollapseWhitespace(u);
      CollapseLeadingSpace(rest);
      assert w + (" " + cu) == (w + " ") + cu;
      if u == [] {
        WordThenBlank(w);
      } else {
        WordThenWords(w, rest);
      }
    }
  }

  lemma CollapseLeadingSpace(s: string)
    requires s != [] && IsSpace(s[0])
    ensures CollapseWhitespace(s) == " " + CollapseWhitespace(StripLeft(s))
  {
    StripLeftStep(s);
  }

  lemma WordThenBlank(w: string)
    requires w != [] && !IsSpace(w[|w| - 1])
    ensures StripRight((w + " ") + CollapseWhitespace([])) == w
  {
    var ws := w + " ";
    assert ws + [] == ws;
    StripRightStep(ws);
    assert ws[..|ws| - 1] == w && w[..|w|] == w;
  }

  lemma WordThenWords(w: string, rest: string)
    requires StripLeft(rest) != []
    requires StripRight(CollapseWhitespace(StripLeft(rest))) == Join(Words(rest), " ")
    ensures StripRight((w + " ") + CollapseWhitespace(StripLeft(rest))) == Join([w] + Words(rest), " ")
  {
    var u := StripLeft(rest);
    var ws := Words(rest);
    assert u[0] == rest[LeadingSpace(rest)];
    assert ws == [u[..WordLength(u)]] + Words(u[WordLength(u)..]);
    JoinNonEmpty(ws, " ");
    StripRightAppend(w + " ", CollapseWhitespace(u));
    assert ([w] + ws)[0] == w && ([w] + ws)[1..] == ws;
  }

  lemma {:induction false} CollapseAllowed(s: string)
    requires AllAllowed(s)
    ensures AllAllowed(CollapseWhitespace(s))
    decreases |s|
  {
    if s != [] {
      if IsSpace(s[0]) {
        var t := StripLeft(s[1..]);
        SliceKeepsShape(s, |s| - |t|, |s|);
        assert t == s[|s| - |t|..|s|];
        CollapseAllowed(t);
        ConcatAllowed(" ", CollapseWhitespace(t));
      } else {
        CollapseAllowed(s[1..]);
        ConcatAllowed([s[0]], CollapseWhitespace(s[1..]));
      }
    }
  }

  lemma NormalizeAllowed(s: string)
    requires AllAllowed(s)
    ensures AllAllowed(NormalizeWhitespace(s))
  {
    var c := CollapseWhitespace(s);
    CollapseAllowed(s);
    StripSlice(c);
    var lo, hi :| 0 <= lo <= hi <= |c| && Strip(c) == c[lo..hi];
    SliceKeepsShape(c, lo, hi);
  }

  // ---------------------------------------------------------------------
  // Step 4: sentence breaks

  /** Step 4, `text.replace('.', '.\n')`. */
  function BreakSentences(s: string): (r: string)
    ensures |r| == |s| + Count(s, '.')
    ensures s != [] ==> r != [] && r[0] == s[0]
  {
    if s == [] then []
    else (if s[0] == '.' then ".\n" else [s[0]]) + BreakSentences(s[1..])
  }

  /** The inverse rewrite: drop the newline that follows each `.`. */
  function JoinSentences(s: string): string {
    if s == [] then []
    else if |s| >= 2 && s[0] == '.' && s[1] == '\n' then ['.'] + JoinSentences(s[2..])
    else [s[0]] + JoinSentences(s[1..])
  }

  /** Step 4 loses nothing: undoing it gives the text back. */
  lemma {:induction false} JoinBreakSentences(s: string)
    ensures JoinSentences(BreakSentences(s)) == s
  {
    if s != [] {
      var rest := BreakSentences(s[1..]);
      JoinBreakSentences(s[1..]);
      if s[0] == '.' {
        assert BreakSentences(s) == ".\n" + rest;
        assert (".\n" + rest)[2..] == rest;
      } else {
        assert BreakSentences(s) == [s[0]] + rest;
        assert ([s[0]] + rest)[1..] == rest;
      }
    }
  }

  /** After step 4 every `.` is followed by a newline. */
  lemma {:induction false} BreakSentencesDots(s: string)
    ensures forall i :: 0 <= i < |BreakSentences(s)| && BreakSentences(s)[i] == '.' ==>
      i + 1 < |BreakSentences(s)| && BreakSentences(s)[i + 1] == '\n'
  {
    if s != [] {
      BreakSentencesDots(s[1..]);
      var p := if s[0] == '.' then ".\n" else [s[0]];
      var rest := BreakSentences(s[1..]);
      assert BreakSentences(s) == p + rest;
      forall i | 0 <= i < |p + rest| && (p + rest)[i] == '.'
        ensures i + 1 < |p + rest| && (p + rest)[i + 1] == '\n'
      {
        if i >= |p| {
          assert (p + rest)[i] == rest[i - |p|];
        }
      }
    }
  }

  /** When the text had no newline, every newline after step 4 follows a `.`. */
  lemma {:induction false} BreakSentencesNewlines(s: string)
    requires forall i :: 0 <= i < |s| ==> s[i] != '\n'
    ensures forall i :: 0 <= i < |BreakSentences(s)| && BreakSentences(s)[i] == '\n' ==>
      0 < i && BreakSentences(s)[i - 1] == '.'
  {
    if s != [] {
      BreakSentencesNewlines(s[1..]);
      var p := if s[0] == '.' then ".\n" else [s[0]];
      var rest := BreakSentences(s[1..]);
      assert BreakSentences(s) == p + rest;
      forall i | 0 <= i < |p + rest| && (p + rest)[i] == '\n'
        ensures 0 < i && (p + rest)[i - 1] == '.'
      {
        if i >= |p| {
          assert (p + rest)[i] == rest[i - |p|];
        }
      }
    }
  }

  /** On text in normal form step 4 produces neighbouring white space only
      as a newline followed by a space (the `".\n "` of a sentence end). */
  lemma {:induction false} BreakSentencesSpacing(s: string)
    requires SpacesAreBlanks(s) && NoAdjacentSpace(s)
    ensures forall i ::
      (0 <= i < |BreakSentences(s)| - 1
       && IsSpace(BreakSentences(s)[i]) && IsSpace(BreakSentences(s)[i + 1])) ==>
      BreakSentences(s)[i] == '\n' && BreakSentences(s)[i + 1] == ' '
  {
    if s != [] {
      assert SpacesAreBlanks(s[1..]) && NoAdjacentSpace(s[1..]);
      BreakSentencesSpacing(s[1..]);
      var p := if s[0] == '.' then ".\n" else [s[0]];
      var rest := BreakSentences(s[1..]);
      assert BreakSentences(s) == p + rest;
      forall i | 0 <= i < |p + rest| - 1 && IsSpace((p + rest)[i]) && IsSpace((p + rest)[i + 1])
        ensures (p + rest)[i] == '\n' && (p + rest)[i + 1] == ' '
      {
        if i >= |p| {
          assert (p + rest)[i] == rest[i - |p|];
          assert (p + rest)[i + 1] == rest[i + 1 - |p|];
        } else if i == |p| - 1 {
          assert (p + rest)[i + 1] == rest[0] == s[1];
        }
      }
    }
  }

  // ---------------------------------------------------------------------
  // clean_text

  /** The text after step 3, before the sentence breaks are inserted. */
  function Collapsed(text: string): string {
    NormalizeWhitespace(KeepAllowed(RemoveCitations(text)))
  }

  /** `TextSummarizer.clean_text`. */
  function CleanText(text: string): string {
    BreakSentences(Collapsed(text))
  }

  /** Only the allowed characters survive cleaning; in particular no bracket
      or parenthesis, so no citation marker, is left. */
  lemma CleanTextAllowed(text: string)
    ensures AllAllowed(CleanText(text))
    ensures forall i :: 0 <= i < |CleanText(text)| ==>
      CleanText(text)[i] !in {'[', ']', '(', ')'}
  {
    var t := Collapsed(text);
    NormalizeAllowed(KeepAllowed(RemoveCitations(text)));
    BreakAllowed(t);
  }

  lemma {:induction false} BreakAllowed(s: string)
    requires AllAllowed(s)
    ensures AllAllowed(BreakSentences(s))
  {
    if s != [] {
      BreakAllowed(s[1..]);
    }
  }

  /** Every `.` of the cleaned text is followed by a newline, every newline
      follows a `.`, and cleaning adds one character per `.` to the text
      that step 3 produced. */
  lemma CleanTextSentences(text: string)
    ensures var r := CleanText(text);
      && (forall i :: 0 <= i < |r| && r[i] == '.' ==> i + 1 < |r| && r[i + 1] == '\n')
      && (forall i :: 0 <= i < |r| && r[i] == '\n' ==> 0 < i && r[i - 1] == '.')
      && |r| == |Collapsed(text)| + Count(Collapsed(text), '.')
  {
    var t := Collapsed(text);
    NormalizeWhitespaceShape(KeepAllowed(RemoveCitations(text)));
    assert forall i :: 0 <= i < |t| ==> t[i] != '\n' by {
      forall i | 0 <= i < |t| ensures t[i] != '\n' {
        assert IsSpace('\n');
      }
    }
    BreakSentencesDots(t);
    BreakSentencesNewlines(t);
  }

  /** The text after step 3 has no neighbouring white space and none at its
      ends; the cleaned text does not start with white space, never holds two
      neighbouring spaces, and has neighbouring white space only where a
      sentence break is followed by a blank. */
  lemma CleanTextSpacing(text: string)
    ensures NoAdjacentSpace(Collapsed(text)) && Trimmed(Collapsed(text))
    ensures var r := CleanText(text);
      && (r != [] ==> !IsSpace(r[0]))
      && (forall i :: 0 <= i < |r| - 1 ==> !(r[i] == ' ' && r[i + 1] == ' '))
      && (forall i :: 0 <= i < |r| - 1 && IsSpace(r[i]) && IsSpace(r[i + 1]) ==>
            r[i] == '\n' && r[i + 1] == ' ')
  {
    var t := Collapsed(text);
    NormalizeWhitespaceShape(KeepAllowed(RemoveCitations(text)));
    BreakSentencesSpacing(t);
  }

  /** Running steps 1 and 2 again on cleaned text changes nothing: the
      removal steps delete nothing on a second cleaning. */
  lemma CleanTextStable(text: string)
    ensures KeepAllowed(RemoveCitations(CleanText(text))) == CleanText(text)
  {
    var r := CleanText(text);
    CleanTextAllowed(text);
    NoOpeningMarkerFree(r);
    RemoveCitationsFixpoint(r);
  }

  /** Cleaning again changes white space only: every non-white-space
      character of the cleaned text survives a second cleaning, in order. */
  lemma CleanTwiceNonSpace(text: string)
    ensures NonSpace(CleanText(CleanText(text))) == NonSpace(CleanText(text))
  {
    var r := CleanText(text);
    CleanTextStable(text);
    NormalizeWhitespaceShape(r);
    BreakSentencesNonSpace(NormalizeWhitespace(r));
  }

  /** Step 4 inserts white space only. */
  lemma {:induction false} BreakSentencesNonSpace(s: string)
    ensures NonSpace(BreakSentences(s)) == NonSpace(s)
  {
    if s != [] {
      var p := if s[0] == '.' then ".\n" else [s[0]];
      BreakSentencesNonSpace(s[1..]);
      NonSpaceConcat(p, BreakSentences(s[1..]));
      assert s == [s[0]] + s[1..];
      NonSpaceConcat([s[0]], s[1..]);
      assert NonSpace(p) == NonSpace([s[0]]) by {
        if s[0] == '.' {
          assert ".\n"[1..] == "\n";
        }
      }
    }
  }

  // ---------------------------------------------------------------------
  // How the steps act on pieces of a text

  /** Text without an opening bracket passes step 1 unchanged, whatever
      follows it. */
  lemma {:induction false} RemoveCitationsPrefix(a: string, b: string)
    requires NoOpening(a)
    ensures RemoveCitations(a + b) == a + RemoveCitations(b)
  {
    if a == [] {
      assert a + b == b;
    } else {
      assert (a + b)[0] == a[0];
      assert MarkerLength(a + b) == 0;
      assert (a + b)[1..] == a[1..] + b;
      RemoveCitationsPrefix(a[1..], b);
    }
  }

  /** Every character at which no marker starts is kept, whatever follows
      it: with `RemoveCitationsMarker` this fixes step 1 on every input. */
  lemma RemoveCitationsKeep(a: string, b: string)
    requires forall i :: 0 <= i < |a| ==> MarkerLength((a + b)[i..]) == 0
    ensures RemoveCitations(a + b) == a + RemoveCitations(b)
  {
    var s := a + b;
    forall i | 0 <= i < |a| ensures MarkerAt(s, i) == 0 { }
    RemoveCitationsKeepFront(s, |a|);
    assert s[..|a|] == a && s[|a|..] == b;
  }

  /** Length of the marker starting at position `i` of `s`. */
  function MarkerAt(s: string, i: nat): nat
    requires i <= |s|
  {
    MarkerLength(s[i..])
  }

  /** The same law for the first `n` characters of one text. */
  lemma {:induction false} RemoveCitationsKeepFront(s: string, n: nat)
    requires n <= |s| && forall i :: 0 <= i < n ==> MarkerAt(s, i) == 0
    ensures RemoveCitations(s) == s[..n] + RemoveCitations(s[n..])
    decreases n
  {
    if n == 0 {
      assert s[..0] == [] && s[0..] == s;
    } else {
      assert MarkerAt(s, 0) == 0;
      assert s[0..] == s;
      RemoveCitationsStep(s);
      MarkerAtTail(s, n);
      RemoveCitationsKeepFront(s[1..], n - 1);
      KeepFrontJoin(s, n, RemoveCitations(s[1..]), RemoveCitations(s[n..]));
    }
  }

  lemma MarkerAtTail(s: string, n: nat)
    requires 0 < n <= |s| && forall i :: 0 <= i < n ==> MarkerAt(s, i) == 0
    ensures forall i :: 0 <= i < n - 1 ==> MarkerAt(s[1..], i) == 0
  {
    forall i | 0 <= i < n - 1 ensures MarkerAt(s[1..], i) == 0 {
      assert MarkerAt(s, i + 1) == 0;
      assert s[1..][i..] == s[i + 1..];
    }
  }

  lemma KeepFrontJoin(s: string, n: nat, rt: string, rn: string)
    requires 0 < n <= |s|
    requires rt == s[1..][..n - 1] + RemoveCitations(s[1..][n - 1..])
    requires rn == RemoveCitations(s[n..])
    ensures [s[0]] + rt == s[..n] + rn
  {
    var t := s[1..];
    assert t[n - 1..] == s[n..];
    assert [s[0]] + (t[..n - 1] + rn) == ([s[0]] + t[..n - 1]) + rn;
    assert [s[0]] + t[..n - 1] == s[..n];
  }

  lemma RemoveCitationsStep(s: string)
    requires s != [] && MarkerLength(s) == 0
    ensures RemoveCitations(s) == [s[0]] + RemoveCitations(s[1..])
  {
  }

  /** A marker at the front is deleted as a whole. */
  lemma RemoveCitationsMarker(m: string, b: string)
    requires IsMarker(m)
    ensures RemoveCitations(m + b) == RemoveCitations(b)
  {
    assert (m + b)[..|m|] == m;
    MarkerLengthMatches(m + b, |m|);
    assert (m + b)[|m|..] == b;
  }

  /** A piece in normal form that ends in a word passes step 3's collapsing
      unchanged, whatever follows it. */
  lemma {:induction false} CollapsePrefix(a: string, b: string)
    requires a != [] && SpacesAreBlanks(a) && NoAdjacentSpace(a) && !IsSpace(a[|a| - 1])
    ensures CollapseWhitespace(a + b) == a + CollapseWhitespace(b)
  {
    if |a| == 1 {
      assert a + b == [a[0]] + b;
      CollapseCons(a[0], b);
    } else {
      var c, r := a[0], a[1..];
      assert a == [c] + r && a + b == [c] + r + b;
      assert SpacesAreBlanks(r) && NoAdjacentSpace(r);
      CollapsePrefix(r, b);
      if IsSpace(c) {
        assert c == ' ' && !IsSpace(r[0]);
        CollapseBlankStep(r, b);
      } else {
        CollapseWordStep(c, r, b);
      }
    }
  }

  lemma CollapseWordStep(c: char, r: string, b: string)
    requires !IsSpace(c)
    requires CollapseWhitespace(r + b) == r + CollapseWhitespace(b)
    ensures CollapseWhitespace([c] + r + b) == [c] + r + CollapseWhitespace(b)
  {
    var t := r + b;
    assert [c] + r + b == [c] + t;
    CollapseCons(c, t);
    var cb := CollapseWhitespace(b);
    assert [c] + (r + cb) == [c] + r + cb;
  }

  lemma CollapseBlankStep(r: string, b: string)
    requires r != [] && !IsSpace(r[0])
    requires CollapseWhitespace(r + b) == r + CollapseWhitespace(b)
    ensures CollapseWhitespace([' '] + r + b) == [' '] + r + CollapseWhitespace(b)
  {
    var t := r + b;
    assert [' '] + r + b == [' '] + t;
    assert t[0] == r[0];
    CollapseBlankCons(t);
    var cb := CollapseWhitespace(b);
    assert [' '] + (r + cb) == [' '] + r + cb;
  }

  lemma CollapseCons(c: char, t: string)
    requires !IsSpace(c)
    ensures CollapseWhitespace([c] + t) == [c] + CollapseWhitespace(t)
  {
  }

  lemma CollapseBlankCons(t: string)
    requires t != [] && !IsSpace(t[0])
    ensures CollapseWhitespace([' '] + t) == [' '] + CollapseWhitespace(t)
  {
  }

  /** Step 4 acts on each piece of a text separately. */
  lemma {:induction false} BreakSentencesConcat(a: string, b: string)
    ensures BreakSentences(a + b) == BreakSentences(a) + BreakSentences(b)
  {
    if a == [] {
      assert a + b == b;
    } else {
      assert (a + b)[0] == a[0];
      assert (a + b)[1..] == a[1..] + b;
      BreakSentencesConcat(a[1..], b);
    }
  }

  /** Step 4 leaves a text without `.` alone. */
  lemma {:induction false} BreakSentencesNoDot(a: string)
    requires forall i :: 0 <= i < |a| ==> a[i] != '.'
    ensures BreakSentences(a) == a
  {
    if a != [] {
      BreakSentencesNoDot(a[1..]);
    }
  }

  // ---------------------------------------------------------------------
  // Cleaning twice

  lemma DotWordSteps()
    ensures RemoveCitations("a.b") == "a.b"
    ensures KeepAllowed("a.b") == "a.b"
  {
  }

  lemma DotWordNormal()
    ensures NormalizeWhitespace("a.b") == "a.b"
  {
    NormalizeWhitespaceFixpoint("a.b");
  }

  lemma DotWordBreak()
    ensures BreakSentences("a.b") == "a.\nb"
  {
  }

  lemma DotNewlineSteps()
    ensures RemoveCitations("a.\nb") == "a.\nb"
    ensures KeepAllowed("a.\nb") == "a.\nb"
  {
    RemoveCitationsPrefix("a.\nb", []);
    assert "a.\nb" + [] == "a.\nb";
  }

  /** A single line break between two runs in normal form becomes a blank. */
  lemma CollapseLineBreak(p: string, w: string)
    requires p != [] && SpacesAreBlanks(p) && NoAdjacentSpace(p) && !IsSpace(p[|p| - 1])
    requires w != [] && SpacesAreBlanks(w) && NoAdjacentSpace(w) && !IsSpace(w[0])
    ensures CollapseWhitespace(p + "\n" + w) == p + " " + w
  {
    var q := "\n" + w;
    assert p + "\n" + w == p + q;
    CollapsePrefix(p, q);
    CollapseNewline(w);
    assert p + (" " + w) == p + " " + w;
  }

  lemma CollapseNewline(w: string)
    requires w != [] && SpacesAreBlanks(w) && NoAdjacentSpace(w) && !IsSpace(w[0])
    ensures CollapseWhitespace("\n" + w) == " " + w
  {
    var q := "\n" + w;
    assert q[0] == '\n' && q[1..] == w;
    assert StripLeft(w) == w;
    CollapseBlanks(w);
  }

  lemma DotNewlineNormal()
    ensures NormalizeWhitespace("a.\nb") == "a. b"
  {
    var p, w := "a.", "b";
    assert SpacesAreBlanks(p) && NoAdjacentSpace(p) && !IsSpace(p[|p| - 1]);
    assert SpacesAreBlanks(w) && NoAdjacentSpace(w) && !IsSpace(w[0]);
    CollapseLineBreak(p, w);
    assert p + "\n" + w == "a.\nb";
    assert p + " " + w == "a. b";
    StripTrimmed("a. b");
  }

  lemma DotNewlineBreak()
    ensures BreakSentences("a. b") == "a.\n b"
  {
  }

  /** `clean_text` is not idempotent: the newline it puts after a `.` is
      white space, which a second pass turns into a blank and breaks again. */
  lemma CleanTextNotIdempotent()
    ensures CleanText("a.b") == "a.\nb"
    ensures CleanText(CleanText("a.b")) == "a.\n b"
    ensures CleanText(CleanText("a.b")) != CleanText("a.b")
  {
    DotWordSteps();
    DotWordNormal();
    DotWordBreak();
    DotNewlineSteps();
    DotNewlineNormal();
    DotNewlineBreak();
  }
}
