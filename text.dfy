/**
 * Character classes and the small string operations of Python's `str` that
 * the summarisation pipeline relies on: `isspace`, `strip`, `"".join` and
 * `sep.join`.  Strings are sequences of Unicode scalar values.
 */
module Text {

  /** Python's `str.isspace()`, which is also what the `\s` class of a `str`
      regular expression matches: the ASCII controls TAB..CR and FS..US, the
      space, and the Unicode white-space characters. */
  predicate IsSpace(c: char) {
    ('\t' <= c <= '\r') || ('\U{1c}' <= c <= ' ')
    || c == '\U{85}' || c == '\U{a0}' || c == '\U{1680}'
    || ('\U{2000}' <= c <= '\U{200a}')
    || c == '\U{2028}' || c == '\U{2029}' || c == '\U{202f}'
    || c == '\U{205f}' || c == '\U{3000}'
  }

  /** The ASCII decimal digits `0-9`. */
  predicate IsDigit(c: char) {
    '0' <= c <= '9'
  }

  /** The characters the cleaning pass keeps: the class `a-zA-Z0-9.,!? \n`. */
  predicate IsAllowed(c: char) {
    ('a' <= c <= 'z') || ('A' <= c <= 'Z') || IsDigit(c)
    || c == '.' || c == ',' || c == '!' || c == '?' || c == ' ' || c == '\n'
  }

  ghost predicate AllAllowed(s: string) {
    forall i :: 0 <= i < |s| ==> IsAllowed(s[i])
  }

  /** No two neighbouring characters are both white space. */
  ghost predicate NoAdjacentSpace(s: string) {
    forall i :: 0 <= i < |s| - 1 ==> !(IsSpace(s[i]) && IsSpace(s[i + 1]))
  }

  /** Neither the first nor the last character is white space. */
  ghost predicate Trimmed(s: string) {
    s != [] ==> !IsSpace(s[0]) && !IsSpace(s[|s| - 1])
  }

  /** Number of occurrences of `c` in `s` (Python's `s.count(c)`). */
  function Count(s: string, c: char): nat {
    if s == [] then 0 else (if s[0] == c then 1 else 0) + Count(s[1..], c)
  }

  /** The non-white-space characters of `s`, in order. */
  function NonSpace(s: string): (r: string)
    ensures |r| <= |s|
    ensures forall i :: 0 <= i < |r| ==> !IsSpace(r[i])
  {
    if s == [] then []
    else if IsSpace(s[0]) then NonSpace(s[1..])
    else [s[0]] + NonSpace(s[1..])
  }

  lemma {:induction false} NonSpaceConcat(a: string, b: string)
    ensures NonSpace(a + b) == NonSpace(a) + NonSpace(b)
  {
    if a == [] {
      assert a + b == b;
    } else {
      assert (a + b)[1..] == a[1..] + b;
      NonSpaceConcat(a[1..], b);
    }
  }

  lemma {:induction false} CountConcat(a: string, b: string, c: char)
    ensures Count(a + b, c) == Count(a, c) + Count(b, c)
  {
    if a == [] {
      assert a + b == b;
    } else {
      assert (a + b)[1..] == a[1..] + b;
      CountConcat(a[1..], b, c);
    }
  }

  /** Length of the white-space prefix of `s`. */
  function LeadingSpace(s: string): (k: nat)
    ensures k <= |s|
    ensures forall i :: 0 <= i < k ==> IsSpace(s[i])
    ensures k < |s| ==> !IsSpace(s[k])
  {
    if s != [] && IsSpace(s[0]) then 1 + LeadingSpace(s[1..]) else 0
  }

  /** Length of the white-space suffix of `s`. */
  function TrailingSpace(s: string): (k: nat)
    ensures k <= |s|
    ensures forall i :: |s| - k <= i < |s| ==> IsSpace(s[i])
    ensures k < |s| ==> !IsSpace(s[|s| - k - 1])
  {
    if s != [] && IsSpace(s[|s| - 1]) then 1 + TrailingSpace(s[..|s| - 1]) else 0
  }

  /** `s.lstrip()`: drops the white-space prefix and nothing else. */
  function StripLeft(s: string): string {
    s[LeadingSpace(s)..]
  }

  /** `s.rstrip()`: drops the white-space suffix and nothing else. */
  function StripRight(s: string): string {
    s[..|s| - TrailingSpace(s)]
  }

  /** `lstrip` removes one leading white-space character at a time ... */
  lemma StripLeftStep(s: string)
    requires s != [] && IsSpace(s[0])
    ensures StripLeft(s) == StripLeft(s[1..])
  {
  }

  /** ... and `rstrip` one trailing white-space character at a time. */
  lemma StripRightStep(s: string)
    requires s != [] && IsSpace(s[|s| - 1])
    ensures StripRight(s) == StripRight(s[..|s| - 1])
  {
  }

  /** `s.strip()`. */
  function Strip(s: string): string {
    StripRight(StripLeft(s))
  }

  /** `strip` returns a trimmed slice of its input ... */
  lemma StripSlice(s: string)
    ensures Trimmed(Strip(s))
    ensures exists lo, hi :: 0 <= lo <= hi <= |s| && Strip(s) == s[lo..hi]
  {
    var lo := LeadingSpace(s);
    var l := s[lo..];
    var r := StripRight(l);
    var hi := lo + |r|;
    assert r == s[lo..hi];
    if r != [] {
      assert r[0] == s[lo];
      assert r[|r| - 1] == l[|l| - TrailingSpace(l) - 1];
    }
  }

  /** ... and what it takes away is white space only. */
  lemma StripNonSpace(s: string)
    ensures NonSpace(Strip(s)) == NonSpace(s)
  {
    StripLeftNonSpace(s);
    StripRightNonSpace(StripLeft(s));
  }

  lemma {:induction false} StripLeftNonSpace(s: string)
    ensures NonSpace(StripLeft(s)) == NonSpace(s)
    decreases |s|
  {
    if s != [] && IsSpace(s[0]) {
      StripLeftStep(s);
      StripLeftNonSpace(s[1..]);
    }
  }

  lemma {:induction false} StripRightNonSpace(s: string)
    ensures NonSpace(StripRight(s)) == NonSpace(s)
    decreases |s|
  {
    if s != [] && IsSpace(s[|s| - 1]) {
      var init := s[..|s| - 1];
      assert s == init + [s[|s| - 1]];
      NonSpaceConcat(init, [s[|s| - 1]]);
      StripRightStep(s);
      StripRightNonSpace(init);
      assert NonSpace([s[|s| - 1]]) == [];
    } else {
      assert s[..|s|] == s;
    }
  }

  /** A trimmed string is left alone by `strip`. */
  lemma StripTrimmed(s: string)
    requires Trimmed(s)
    ensures Strip(s) == s
  {
  }

  /** `"".join(parts)`: concatenation of the parts in order. */
  function Concat(parts: seq<string>): string {
    if parts == [] then [] else Concat(parts[..|parts| - 1]) + parts[|parts| - 1]
  }

  /** Concatenation also unfolds at the front. */
  lemma {:induction false} ConcatCons(p: string, rest: seq<string>)
    ensures Concat([p] + rest) == p + Concat(rest)
  {
    if rest != [] {
      var n := |rest|;
      assert ([p] + rest)[..n] == [p] + rest[..n - 1];
      ConcatCons(p, rest[..n - 1]);
    } else {
      assert [p] + rest == [p];
      assert [p][..0] == [];
    }
  }

  /** `sep.join(parts)`. */
  function Join(parts: seq<string>, sep: string): string {
    if parts == [] then []
    else if |parts| == 1 then parts[0]
    else parts[0] + sep + Join(parts[1..], sep)
  }

  /** `r` is `s` with some characters deleted: what is left keeps its order. */
  ghost predicate Subsequence(r: string, s: string)
    decreases |s|
  {
    r == [] || (s != [] && ((r[0] == s[0] && Subsequence(r[1..], s[1..])) || Subsequence(r, s[1..])))
  }

  /** Deleting a prefix of `s` keeps a subsequence of the rest one of `s`. */
  lemma {:induction false} SubsequenceDrop(r: string, s: string, n: nat)
    requires n <= |s| && Subsequence(r, s[n..])
    ensures Subsequence(r, s)
    decreases n
  {
    if n > 0 {
      assert s[1..][n - 1..] == s[n..];
      SubsequenceDrop(r, s[1..], n - 1);
    } else {
      assert s[0..] == s;
    }
  }

  /** Length of the run of non-white-space characters at the start of `s`. */
  function WordLength(s: string): (k: nat)
    ensures k <= |s|
    ensures forall i :: 0 <= i < k ==> !IsSpace(s[i])
    ensures k < |s| ==> IsSpace(s[k])
  {
    if s != [] && !IsSpace(s[0]) then 1 + WordLength(s[1..]) else 0
  }

  /** `s.split()` with no separator: the maximal runs of non-white-space
      characters of `s`, in order. */
  function Words(s: string): seq<string>
    decreases |s|
  {
    var t := StripLeft(s);
    if t == [] then [] else [t[..WordLength(t)]] + Words(t[WordLength(t)..])
  }

  /** Every word is non-empty and holds no white space. */
  lemma {:induction false} WordsShape(s: string)
    ensures forall i :: 0 <= i < |Words(s)| ==> Words(s)[i] != [] && NonSpace(Words(s)[i]) == Words(s)[i]
    decreases |s|
  {
    var t := StripLeft(s);
    if t != [] {
      var k := WordLength(t);
      assert t[0] == s[LeadingSpace(s)];
      NonSpaceWord(t[..k]);
      WordsShape(t[k..]);
    }
  }

  lemma {:induction false} NonSpaceWord(w: string)
    requires forall i :: 0 <= i < |w| ==> !IsSpace(w[i])
    ensures NonSpace(w) == w
  {
    if w != [] {
      assert w == [w[0]] + w[1..];
      NonSpaceConcat([w[0]], w[1..]);
      NonSpaceWord(w[1..]);
    }
  }

  /** The words hold all the text's non-white-space characters, in order. */
  lemma {:induction false} WordsText(s: string)
    ensures Concat(Words(s)) == NonSpace(s)
    decreases |s|
  {
    var t := StripLeft(s);
    StripLeftNonSpace(s);
    if t != [] {
      var k := WordLength(t);
      var w, rest := t[..k], t[k..];
      assert t == w + rest;
      NonSpaceConcat(w, rest);
      NonSpaceWord(w);
      WordsText(rest);
      ConcatCons(w, Words(rest));
    } else {
      assert NonSpace(t) == [];
    }
  }

  /** White space at the front of a concatenation: `lstrip` goes on into the
      second part only when the first is all white space. */
  lemma {:induction false} StripLeftAppend(x: string, y: string)
    ensures StripLeft(x + y) == if StripLeft(x) == [] then StripLeft(y) else StripLeft(x) + y
  {
    if x == [] {
      assert x + y == y;
    } else {
      assert (x + y)[0] == x[0] && (x + y)[1..] == x[1..] + y;
      if IsSpace(x[0]) {
        StripLeftAppend(x[1..], y);
      }
    }
  }

  /** White space at the end of a non-blank piece is all `rstrip` sees of a
      longer text. */
  lemma {:induction false} StripRightAppend(x: string, y: string)
    requires StripRight(y) != []
    ensures StripRight(x + y) == x + StripRight(y)
    decreases |y|
  {
    var xy := x + y;
    if IsSpace(y[|y| - 1]) {
      assert xy[..|xy| - 1] == x + y[..|y| - 1];
      StripRightStep(xy);
      StripRightStep(y);
      StripRightAppend(x, y[..|y| - 1]);
    } else {
      assert xy[|xy| - 1] == y[|y| - 1];
      assert xy[..|xy|] == xy && y[..|y|] == y;
    }
  }

  lemma JoinNonEmpty(parts: seq<string>, sep: string)
    requires parts != [] && parts[0] != []
    ensures Join(parts, sep) != []
  {
  }

  /** Joining two non-empty runs of parts puts exactly one separator
      between them: order is kept and nothing else is inserted. */
  lemma {:induction false} JoinAppend(a: seq<string>, b: seq<string>, sep: string)
    requires a != [] && b != []
    ensures Join(a + b, sep) == Join(a, sep) + sep + Join(b, sep)
  {
    if |a| == 1 {
      assert (a + b)[0] == a[0] && (a + b)[1..] == b;
    } else {
      assert (a + b)[0] == a[0] && (a + b)[1..] == a[1..] + b;
      JoinAppend(a[1..], b, sep);
    }
  }

  /** The joined text is the parts' text plus one separator per gap. */
  lemma {:induction false} JoinLength(parts: seq<string>, sep: string)
    requires parts != []
    ensures |Join(parts, sep)| == |Concat(parts)| + (|parts| - 1) * |sep|
  {
    var n := |parts|;
    if n > 1 {
      var init := parts[..n - 1];
      assert init + [parts[n - 1]] == parts;
      var last := parts[n - 1];
      JoinAppend(init, [last], sep);
      JoinLength(init, sep);
      assert Join([last], sep) == last;
      assert |Join(parts, sep)| == |Join(init, sep)| + |sep| + |last|;
      assert |Concat(parts)| == |Concat(init)| + |last|;
      assert (n - 1) * |sep| == (n - 2) * |sep| + |sep|;
    }
  }
}
