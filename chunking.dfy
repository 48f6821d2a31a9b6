/**
 * The chunking policy of `TextSummarizer.summarize_text_in_chunks`: the text
 * is cut into `ceil(len(text) / max_chunk_size)` consecutive slices
 * `text[i * N : (i + 1) * N]`, the last of which may be shorter.
 */
module ChunkSplitter {
  import opened Text

  /** `math.ceil(len(text) / max_chunk_size)`, on integers: the least `k`
      with `k * size >= length`. */
  function NumChunks(length: nat, size: nat): (k: nat)
    requires size > 0
    ensures k * size >= length
    ensures k > 0 ==> (k - 1) * size < length
  {
    var k := (length + size - 1) / size;
    assert length + size - 1 == k * size + (length + size - 1) % size;
    assert (k - 1) * size == k * size - size;
    k
  }

  /** Python's `s[lo:hi]` for non-negative bounds: both are clamped to the
      length, and a reversed range is empty. */
  function Slice(s: string, lo: nat, hi: nat): string {
    var l := if lo < |s| then lo else |s|;
    var h := if hi < |s| then hi else |s|;
    if l <= h then s[l..h] else []
  }

  /** The `i`-th chunk, `text[i * size : (i + 1) * size]`. */
  function Chunk(text: string, size: nat, i: nat): string {
    Slice(text, i * size, (i + 1) * size)
  }

  /** The chunks in order, one per loop iteration. */
  function Chunks(text: string, size: nat): seq<string>
    requires size > 0
  {
    seq(NumChunks(|text|, size), i requires 0 <= i => Chunk(text, size, i))
  }

  lemma MulMonotone(a: nat, b: nat, size: nat)
    requires a <= b
    ensures a * size <= b * size
  {
  }

  /** Chunk `i` (of those the loop visits) starts inside the text at
      `i * size` and ends `size` later, or at the end of the text. */
  lemma ChunkBounds(text: string, size: nat, i: nat)
    requires size > 0 && i < NumChunks(|text|, size)
    ensures i * size < |text|
    ensures var hi := if (i + 1) * size < |text| then (i + 1) * size else |text|;
      Chunk(text, size, i) == text[i * size..hi]
  {
  }

  /** The number of chunks is the ceiling of `|text| / size`; every chunk is
      non-empty and at most `size` long, and every chunk but the last is
      exactly `size` long. */
  lemma ChunksShape(text: string, size: nat)
    requires size > 0
    ensures var cs := Chunks(text, size);
      && |cs| * size >= |text|
      && (|cs| > 0 ==> (|cs| - 1) * size < |text|)
      && (forall i :: 0 <= i < |cs| ==> 0 < |cs[i]| <= size)
      && (forall i :: 0 <= i < |cs| - 1 ==> |cs[i]| == size)
  {
    var cs := Chunks(text, size);
    forall i | 0 <= i < |cs|
      ensures 0 < |cs[i]| <= size
      ensures i < |cs| - 1 ==> |cs[i]| == size
    {
      ChunkBounds(text, size, i);
      assert (i + 1) * size == i * size + size;
      if i < |cs| - 1 {
        MulMonotone(i + 1, |cs| - 1, size);
      }
    }
  }

  /** The first `k` chunks cover exactly the first `k * size` characters. */
  lemma {:induction false} ChunksPrefix(text: string, size: nat, k: nat)
    requires size > 0 && k <= NumChunks(|text|, size)
    ensures var hi := if k * size < |text| then k * size else |text|;
      Concat(Chunks(text, size)[..k]) == text[..hi]
  {
    var cs := Chunks(text, size);
    if k > 0 {
      ChunksPrefix(text, size, k - 1);
      ChunkBounds(text, size, k - 1);
      var lo := (k - 1) * size;
      var hi := if k * size < |text| then k * size else |text|;
      assert k * size == lo + size;
      assert cs[..k][..k - 1] == cs[..k - 1];
      assert Concat(cs[..k]) == Concat(cs[..k - 1]) + cs[k - 1];
      assert cs[k - 1] == text[lo..hi];
      assert text[..lo] + text[lo..hi] == text[..hi];
    }
  }

  /** Partition round trip: the chunks, concatenated in order, give back the
      text exactly. */
  lemma ChunksConcat(text: string, size: nat)
    requires size > 0
    ensures Concat(Chunks(text, size)) == text
  {
    var cs := Chunks(text, size);
    ChunksPrefix(text, size, |cs|);
    assert cs[..|cs|] == cs;
  }

  /** An empty text has no chunk at all (not one empty chunk). */
  lemma ChunksEmpty(text: string, size: nat)
    requires size > 0 && text == []
    ensures Chunks(text, size) == []
  {
  }

  /** A non-empty text no longer than one chunk is its own single chunk. */
  lemma ChunksSingle(text: string, size: nat)
    requires size > 0 && 0 < |text| <= size
    ensures Chunks(text, size) == [text]
  {
    NumChunksUnique(|text|, size, 1);
    var cs := Chunks(text, size);
    ChunkBounds(text, size, 0);
    assert cs[0] == text[0..|text|] == text;
  }

  /** The ceiling determines the chunk count: a count that covers the text
      while one less does not is the count. */
  lemma NumChunksUnique(length: nat, size: nat, k: nat)
    requires size > 0
    requires k * size >= length && (k > 0 ==> (k - 1) * size < length)
    ensures NumChunks(length, size) == k
  {
    var n := NumChunks(length, size);
    if n < k {
      MulMonotone(n, k - 1, size);
    } else if n > k {
      MulMonotone(k, n - 1, size);
    }
  }

  /** Chunking respects a split at a chunk boundary: when the first part is a
      whole number of chunks long, its chunks come first, then those of the
      rest. */
  lemma ChunksAppend(a: string, b: string, size: nat)
    requires size > 0 && |a| % size == 0
    ensures Chunks(a + b, size) == Chunks(a, size) + Chunks(b, size)
  {
    var ka := |a| / size;
    assert |a| == ka * size;
    assert ka > 0 ==> (ka - 1) * size == ka * size - size;
    NumChunksUnique(|a|, size, ka);
    var nb := NumChunks(|b|, size);
    assert (ka + nb) * size == ka * size + nb * size;
    assert ka + nb > 0 ==> (ka + nb - 1) * size == (ka + nb) * size - size;
    assert nb > 0 ==> (nb - 1) * size == nb * size - size;
    NumChunksUnique(|a + b|, size, ka + nb);
    var lhs := Chunks(a + b, size);
    var rhs := Chunks(a, size) + Chunks(b, size);
    forall i | 0 <= i < ka + nb ensures lhs[i] == rhs[i] {
      if i < ka {
        ChunkAppendFront(a, b, size, i);
      } else {
        ChunkAppendBack(a, b, size, ka, i - ka);
      }
    }
  }

  lemma ChunkAppendFront(a: string, b: string, size: nat, i: nat)
    requires size > 0 && i < NumChunks(|a|, size) && |a| % size == 0
    ensures Chunk(a + b, size, i) == Chunk(a, size, i)
  {
    var ka := |a| / size;
    assert |a| == ka * size;
    assert ka > 0 ==> (ka - 1) * size == ka * size - size;
    NumChunksUnique(|a|, size, ka);
    MulMonotone(i + 1, ka, size);
    assert (i + 1) * size == i * size + size;
    assert (a + b)[i * size..(i + 1) * size] == a[i * size..(i + 1) * size];
  }

  lemma ChunkAppendBack(a: string, b: string, size: nat, ka: nat, j: nat)
    requires size > 0 && |a| == ka * size && j < NumChunks(|b|, size)
    ensures Chunk(a + b, size, ka + j) == Chunk(b, size, j)
  {
  }

  /** `parts` cuts `text` into consecutive pieces of exactly `size`
      characters, except that the last piece may be shorter (but not empty). */
  ghost predicate FixedPartition(parts: seq<string>, size: nat, text: string) {
    && Concat(parts) == text
    && (forall i :: 0 <= i < |parts| ==> 0 < |parts[i]| <= size)
    && (forall i :: 0 <= i < |parts| - 1 ==> |parts[i]| == size)
  }

  /** The chunks are such a partition ... */
  lemma ChunksPartition(text: string, size: nat)
    requires size > 0
    ensures FixedPartition(Chunks(text, size), size, text)
  {
    ChunksShape(text, size);
    ChunksConcat(text, size);
  }

  /** ... and the only one: any partition into full pieces and a shorter
      last piece is the chunk sequence. */
  lemma {:induction false} PartitionIsChunks(parts: seq<string>, size: nat, text: string)
    requires size > 0 && FixedPartition(parts, size, text)
    ensures parts == Chunks(text, size)
  {
    if parts == [] {
      assert text == [];
    } else {
      var rest := parts[1..];
      assert parts == [parts[0]] + rest;
      ConcatCons(parts[0], rest);
      var tail := Concat(rest);
      assert text == parts[0] + tail;
      assert FixedPartition(rest, size, tail);
      PartitionIsChunks(rest, size, tail);
      ChunksSingle(parts[0], size);
      if rest == [] {
        assert tail == [];
        assert text == parts[0];
      } else {
        assert |parts[0]| == size;
        assert |parts[0]| % size == 0;
        ChunksAppend(parts[0], tail, size);
      }
    }
  }
}
