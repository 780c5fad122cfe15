// The sliding-window chunker of `extract_pdf_chunks`: the document text is
// normalized, then cut into windows of `chunkSize` characters whose starts
// are `chunkSize - overlap` characters apart.

module Chunking {
  import opened CharClass
  import opened Whitespace

  const DEFAULT_CHUNK_SIZE: int := 500
  const DEFAULT_OVERLAP: int := 100

  /** Parameters for which the chunking loop terminates and every window
      has a positive width. */
  predicate ValidParameters(chunkSize: int, overlap: int)
  {
    0 < chunkSize && overlap < chunkSize
  }

  function Min(a: int, b: int): int
  {
    if a < b then a else b
  }

  /** The window at offset `start`: Python's `text[start:start + size]`,
      which stops at the end of the text. */
  function Window(text: string, size: nat, start: nat): (w: string)
    requires start <= |text|
  {
    text[start..Min(start + size, |text|)]
  }

  /** The windows starting at `start`, `start + stride`, ... while the start
      lies inside the text. */
  function WindowsFrom(text: string, size: nat, stride: nat, start: nat): seq<string>
    requires stride > 0
    decreases |text| - start
  {
    if start >= |text| then []
    else [Window(text, size, start)] + WindowsFrom(text, size, stride, start + stride)
  }

  /** The chunks the loop produces from an already normalized text: none
      exactly for the empty text, and each one non-empty and at most
      `chunkSize` long. */
  function Chunks(text: string, chunkSize: int, overlap: int): (cs: seq<string>)
    requires ValidParameters(chunkSize, overlap)
    ensures cs == [] <==> text == []
    ensures forall i :: 0 <= i < |cs| ==> 0 < |cs[i]| <= chunkSize
  {
    WindowsFromBounds(text, chunkSize, chunkSize - overlap, 0);
    WindowsFrom(text, chunkSize, chunkSize - overlap, 0)
  }

  /** `extract_pdf_chunks` after the PDF has been read: whitespace runs are
      collapsed, then the text is cut by the sliding-window loop. */
  method ExtractChunks(fullText: string, chunkSize: int, overlap: int)
    returns (chunks: seq<string>)
    requires ValidParameters(chunkSize, overlap)
    ensures chunks == Chunks(Normalize(fullText), chunkSize, overlap)
  {
    var text := Normalize(fullText);
    chunks := [];
    var start := 0;
    while start < |text|
      invariant chunks + WindowsFrom(text, chunkSize, chunkSize - overlap, start)
                == Chunks(text, chunkSize, overlap)
      decreases |text| - start
    {
      var end := start + chunkSize;
      var chunk := text[start..Min(end, |text|)];
      chunks := chunks + [chunk];
      start := start + (chunkSize - overlap);
    }
  }

  /** The number of windows needed to cover `n` characters at steps of
      `stride`: the ceiling of n / stride. */
  function CeilDiv(n: nat, stride: nat): (k: nat)
    requires stride > 0
    ensures (k == 0 || (k - 1) * stride < n) && n <= k * stride
  {
    if n == 0 then 0 else 1 + CeilDiv(if n <= stride then 0 else n - stride, stride)
  }

  /** There are exactly as many windows as it takes to pass the end of the
      text. */
  lemma {:induction false} WindowsFromCount(text: string, size: nat, stride: nat, start: nat)
    requires stride > 0
    ensures |WindowsFrom(text, size, stride, start)|
            == if start < |text| then CeilDiv(|text| - start, stride) else 0
    decreases |text| - start
  {
    if start < |text| {
      WindowsFromCount(text, size, stride, start + stride);
    }
  }

  lemma StrideStep(start: nat, stride: nat, i: nat)
    requires 1 <= i
    ensures start + stride + (i - 1) * stride == start + i * stride
  {
  }

  /** Window `i` of WindowsFrom starts `i` strides after `start`. */
  lemma {:induction false} WindowsFromAt(text: string, size: nat, stride: nat, start: nat)
    requires stride > 0
    ensures var ws := WindowsFrom(text, size, stride, start);
            forall i :: 0 <= i < |ws| ==>
              start + i * stride < |text| && ws[i] == Window(text, size, start + i * stride)
    decreases |text| - start
  {
    if start < |text| {
      var ws := WindowsFrom(text, size, stride, start);
      var rest := WindowsFrom(text, size, stride, start + stride);
      WindowsFromAt(text, size, stride, start + stride);
      forall i | 0 <= i < |ws|
        ensures start + i * stride < |text| && ws[i] == Window(text, size, start + i * stride)
      {
        if i == 0 {
          assert ws[0] == Window(text, size, start);
        } else {
          assert ws[i] == rest[i - 1];
          StrideStep(start, stride, i);
        }
      }
    }
  }

  /** Chunk `i` is the slice of the text that starts at i * stride and is at
      most `chunkSize` long; there are ceil(|text| / stride) chunks. */
  lemma ChunkAt(text: string, chunkSize: int, overlap: int)
    requires ValidParameters(chunkSize, overlap)
    ensures var cs := Chunks(text, chunkSize, overlap);
            var stride := chunkSize - overlap;
            |cs| == CeilDiv(|text|, stride) &&
            forall i :: 0 <= i < |cs| ==>
              i * stride < |text| &&
              cs[i] == text[i * stride..Min(i * stride + chunkSize, |text|)]
  {
    WindowsFromCount(text, chunkSize, chunkSize - overlap, 0);
    WindowsFromAt(text, chunkSize, chunkSize - overlap, 0);
  }

  /** With the default parameters (500 characters, 100 of overlap) the
      stride is 400: chunk i is the text from 400*i for up to 500
      characters, and the last 100 characters of a full chunk open the next
      one. */
  lemma DefaultChunking(text: string)
    ensures ValidParameters(DEFAULT_CHUNK_SIZE, DEFAULT_OVERLAP)
    ensures var cs := Chunks(text, DEFAULT_CHUNK_SIZE, DEFAULT_OVERLAP);
            |cs| == CeilDiv(|text|, 400) &&
            (forall i :: 0 <= i < |cs| ==> cs[i] == text[i * 400..Min(i * 400 + 500, |text|)]) &&
            forall i :: 0 <= i && i + 1 < |cs| ==>
              400 < |cs[i]| && |cs[i]| - 400 <= |cs[i + 1]| &&
              cs[i][400..] == cs[i + 1][..|cs[i]| - 400]
  {
    ChunkAt(text, DEFAULT_CHUNK_SIZE, DEFAULT_OVERLAP);
    var cs := Chunks(text, DEFAULT_CHUNK_SIZE, DEFAULT_OVERLAP);
    forall i | 0 <= i && i + 1 < |cs|
      ensures 400 < |cs[i]| && |cs[i]| - 400 <= |cs[i + 1]|
      ensures cs[i][400..] == cs[i + 1][..|cs[i]| - 400]
    {
      assert cs[i] == text[i * 400..Min(i * 400 + 500, |text|)];
      assert cs[i + 1] == text[(i + 1) * 400..Min((i + 1) * 400 + 500, |text|)];
    }
  }

  /** Every window that starts inside the text is non-empty and at most
      `size` long. */
  lemma {:induction false} WindowsFromBounds(text: string, size: nat, stride: nat, start: nat)
    requires stride > 0 && size > 0
    ensures var ws := WindowsFrom(text, size, stride, start);
            (ws == [] <==> start >= |text|) &&
            forall i :: 0 <= i < |ws| ==> 0 < |ws[i]| <= size
    decreases |text| - start
  {
    if start < |text| {
      WindowsFromBounds(text, size, stride, start + stride);
      WindowBounds(text, size, start);
    }
  }

  lemma WindowBounds(text: string, size: nat, start: nat)
    requires start < |text| && 0 < size
    ensures 0 < |Window(text, size, start)| <= size
  {
  }

  /** With a non-negative overlap the last chunk is the window that starts
      at the last stride and runs to the end of the text. */
  lemma LastChunkReachesEnd(text: string, chunkSize: int, overlap: int)
    requires ValidParameters(chunkSize, overlap) && 0 <= overlap
    requires text != []
    ensures var cs := Chunks(text, chunkSize, overlap);
            var last := (|cs| - 1) * (chunkSize - overlap);
            cs != [] && last < |text| && cs[|cs| - 1] == text[last..]
  {
    ChunkAt(text, chunkSize, overlap);
    var stride := chunkSize - overlap;
    var k := CeilDiv(|text|, stride);
    StrideStep(0, stride, k);
    assert (k - 1) * stride + chunkSize >= |text|;
  }

  /** Python's `c[n:]`: `c` without its first `n` characters, or nothing when
      `c` is shorter. */
  function DropPrefix(c: string, n: nat): (r: string)
    ensures |r| == if |c| <= n then 0 else |c| - n
  {
    if |c| <= n then [] else c[n..]
  }

  /** The later chunks with their first `overlap` characters dropped, joined. */
  function JoinTails(cs: seq<string>, overlap: nat): string
  {
    if cs == [] then [] else DropPrefix(cs[0], overlap) + JoinTails(cs[1..], overlap)
  }

  /** Chunk 0 followed by every later chunk without its overlap. */
  function Reassemble(cs: seq<string>, overlap: nat): string
  {
    if cs == [] then [] else cs[0] + JoinTails(cs[1..], overlap)
  }

  /** The windows from `start` on, each without its overlap, continue the text
      exactly from `start + overlap`. */
  lemma {:induction false} JoinTailsOfWindows(text: string, chunkSize: nat, overlap: nat, start: nat)
    requires overlap < chunkSize
    ensures JoinTails(WindowsFrom(text, chunkSize, chunkSize - overlap, start), overlap)
            == text[Min(start + overlap, |text|)..]
    decreases |text| - start
  {
    var stride := chunkSize - overlap;
    if start < |text| {
      var w := Window(text, chunkSize, start);
      JoinTailsOfWindows(text, chunkSize, overlap, start + stride);
      var next := Min(start + chunkSize, |text|);
      assert WindowsFrom(text, chunkSize, stride, start)[1..]
             == WindowsFrom(text, chunkSize, stride, start + stride);
      if |w| <= overlap {
        assert next == |text|;
      } else {
        assert DropPrefix(w, overlap) == text[start + overlap..next];
        assert text[start + overlap..next] + text[next..] == text[start + overlap..];
      }
    }
  }

  /** Chunk 0 followed by each later chunk with its first `overlap`
      characters dropped reproduces the normalized text exactly. */
  lemma ChunksReassemble(text: string, chunkSize: int, overlap: int)
    requires ValidParameters(chunkSize, overlap) && 0 <= overlap
    ensures Reassemble(Chunks(text, chunkSize, overlap), overlap) == text
  {
    var stride := chunkSize - overlap;
    if text != [] {
      var cs := Chunks(text, chunkSize, overlap);
      assert cs[1..] == WindowsFrom(text, chunkSize, stride, stride);
      JoinTailsOfWindows(text, chunkSize, overlap, stride);
      var first := Min(chunkSize, |text|);
      assert text[..first] + text[first..] == text;
    }
  }

  /** The chunks of a document are those of its normalized text: only the
      empty document gives none (an all-whitespace one gives the single
      chunk " "), and chunking the chunker's own normalized text again
      changes nothing. */
  lemma ExtractChunksOfNormalized(fullText: string, chunkSize: int, overlap: int)
    requires ValidParameters(chunkSize, overlap)
    ensures Chunks(Normalize(fullText), chunkSize, overlap) == [] <==> fullText == []
    ensures Chunks(Normalize(Normalize(fullText)), chunkSize, overlap)
            == Chunks(Normalize(fullText), chunkSize, overlap)
  {
    NormalizeIdempotent(fullText);
  }

  /** A document made only of whitespace is not empty to the chunker: it
      normalizes to one space, which is one chunk. */
  lemma BlankDocument(fullText: string, chunkSize: int, overlap: int)
    requires ValidParameters(chunkSize, overlap)
    requires fullText != [] && forall i :: 0 <= i < |fullText| ==> IsSpace(fullText[i])
    ensures Chunks(Normalize(fullText), chunkSize, overlap) == [" "]
  {
    NormalizeSpaceRun(fullText);
    assert Window(" ", chunkSize, 0) == " ";
  }
}
