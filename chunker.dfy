/** Model of `chunk_text` (main.py:34-48): the sliding-window splitter that
    cuts the extracted document text into overlapping chunks.

    A cursor starts at 0; each pass emits the window of `chunkSize`
    characters at the cursor (truncated at the end of the text) and moves
    the cursor forward by `chunkSize - overlap`, the step. The loop stops
    once the cursor is at or past the end of the text. */
module Chunker {

  /** The defaults of `chunk_text`, the only values the application uses. */
  const DefaultChunkSize: nat := 6000
  const DefaultOverlap: nat := 500

  function Min(a: int, b: int): int
  {
    if a <= b then a else b
  }

  /** Python's `s[lo:hi]` for non-negative bounds: both bounds are clamped to
      the length of `s`, and the slice is empty when `hi <= lo`. */
  function Slice(s: string, lo: nat, hi: nat): (r: string)
    ensures |r| == if lo < hi && lo < |s| then Min(hi, |s|) - lo else 0
    ensures forall j :: 0 <= j < |r| ==> r[j] == s[lo + j]
  {
    if lo < hi && lo < |s| then s[lo .. Min(hi, |s|)] else []
  }

  /** Python's `s[k:]` for a non-negative `k`. */
  function Drop(s: string, k: nat): (r: string)
    ensures |r| == if k < |s| then |s| - k else 0
    ensures forall j :: 0 <= j < |r| ==> r[j] == s[k + j]
  {
    if k < |s| then s[k..] else []
  }

  /** Offset of the i-th chunk: the cursor after i steps. */
  function Start(i: nat, step: nat): nat
  {
    if i == 0 then 0 else Start(i - 1, step) + step
  }

  /** The cursor after i steps is i times the step. */
  lemma {:induction false} StartIsProduct(i: nat, step: nat)
    ensures Start(i, step) == i * step
  {
    if i > 0 {
      StartIsProduct(i - 1, step);
    }
  }

  /** Cursor offsets never decrease. */
  lemma {:induction false} StartMonotone(i: nat, j: nat, step: nat)
    requires i <= j
    ensures Start(i, step) <= Start(j, step)
    decreases j
  {
    if i < j {
      StartMonotone(i, j - 1, step);
    }
  }

  /** Cursor offsets strictly increase with a positive step. */
  lemma {:induction false} StartIncreasing(i: nat, j: nat, step: nat)
    requires i < j && step > 0
    ensures Start(i, step) + step <= Start(j, step)
    decreases j
  {
    if i + 1 < j {
      StartIncreasing(i, j - 1, step);
    }
  }

  /** The number of cursor positions 0, step, 2 * step, ... below `n`, that
      is, the ceiling of `n / step`. */
  function ChunkCount(n: nat, step: nat): (k: nat)
    requires step > 0
    ensures n <= Start(k, step)
    ensures k == 0 || Start(k - 1, step) < n
    decreases n
  {
    if n == 0 then 0
    else if n <= step then 1
    else 1 + ChunkCount(n - step, step)
  }

  /** The two contract clauses of ChunkCount pin the count down: any `k`
      that satisfies them is the count. */
  lemma CountUnique(n: nat, step: nat, k: nat)
    requires step > 0
    requires n <= Start(k, step)
    requires k == 0 || Start(k - 1, step) < n
    ensures k == ChunkCount(n, step)
  {
    var c := ChunkCount(n, step);
    if k < c {
      StartIncreasing(k, c - 1, step);
    } else if c < k {
      StartIncreasing(c, k - 1, step);
    }
  }

  /** A cursor position below `n` is one of the first ChunkCount positions. */
  lemma BelowCount(n: nat, step: nat, j: nat)
    requires step > 0
    requires Start(j, step) < n
    ensures j < ChunkCount(n, step)
  {
    var c := ChunkCount(n, step);
    if c < j {
      StartIncreasing(c, j, step);
    }
  }

  /** End offset (exclusive) of the i-th chunk: its nominal end, cut short
      at the end of the text. */
  function ChunkEnd(text: string, chunkSize: nat, overlap: nat, i: nat): nat
    requires overlap < chunkSize
  {
    Min(Start(i, chunkSize - overlap) + chunkSize, |text|)
  }

  /** The chunks `chunk_text(text, chunkSize, overlap)` returns, in closed
      form: the i-th chunk is the window that starts at i steps, for every
      such start below `|text|`. */
  function Chunks(text: string, chunkSize: nat, overlap: nat): (cs: seq<string>)
    requires overlap < chunkSize
    ensures |text| == 0 <==> cs == []
  {
    var step := chunkSize - overlap;
    var k := ChunkCount(|text|, step);
    seq(k, i requires 0 <= i < k =>
      StartMonotone(i, k - 1, step);
      text[Start(i, step) .. ChunkEnd(text, chunkSize, overlap, i)])
  }

  /** The i-th chunk is the text between its start and its end, and its
      start lies inside the text. */
  lemma ChunkAt(text: string, chunkSize: nat, overlap: nat, i: nat)
    requires overlap < chunkSize
    requires i < |Chunks(text, chunkSize, overlap)|
    ensures var cs := Chunks(text, chunkSize, overlap);
      Start(i, chunkSize - overlap) < |text| &&
      cs[i] == text[Start(i, chunkSize - overlap) .. ChunkEnd(text, chunkSize, overlap, i)]
  {
    StartMonotone(i, |Chunks(text, chunkSize, overlap)| - 1, chunkSize - overlap);
  }

  /** Every chunk starts inside the text, is non-empty and holds at most
      `chunkSize` characters. */
  lemma ChunkShape(text: string, chunkSize: nat, overlap: nat)
    requires overlap < chunkSize
    ensures var cs := Chunks(text, chunkSize, overlap);
      forall i :: 0 <= i < |cs| ==>
        Start(i, chunkSize - overlap) < |text| && 0 < |cs[i]| <= chunkSize
  {
    var step := chunkSize - overlap;
    var cs := Chunks(text, chunkSize, overlap);
    forall i | 0 <= i < |cs|
      ensures Start(i, step) < |text| && 0 < |cs[i]| <= chunkSize
    {
      StartMonotone(i, |cs| - 1, step);
    }
  }

  /** A cursor inside the text emits the next chunk of the closed form. */
  lemma NextChunk(text: string, chunkSize: nat, overlap: nat, n: nat)
    requires overlap < chunkSize
    requires Start(n, chunkSize - overlap) < |text|
    ensures var cs := Chunks(text, chunkSize, overlap);
      var start := Start(n, chunkSize - overlap);
      n < |cs| && cs[..n] + [Slice(text, start, start + chunkSize)] == cs[..n + 1]
  {
    var cs := Chunks(text, chunkSize, overlap);
    BelowCount(|text|, chunkSize - overlap, n);
    ChunkAt(text, chunkSize, overlap, n);
    assert cs[..n + 1] == cs[..n] + [cs[n]];
  }

  /** `chunk_text` (main.py:34-48). The source never checks that the step
      `chunkSize - overlap` is positive; when it is not, the cursor never
      moves and the loop runs forever, so the model requires it. */
  method ChunkText(text: string, chunkSize: nat, overlap: nat) returns (chunks: seq<string>)
    requires overlap < chunkSize
    ensures chunks == Chunks(text, chunkSize, overlap)
  {
    ghost var spec := Chunks(text, chunkSize, overlap);
    chunks := [];
    var start: nat := 0;
    while start < |text|
      invariant start == Start(|chunks|, chunkSize - overlap)
      invariant |chunks| <= |spec|
      invariant |chunks| == 0 || Start(|chunks| - 1, chunkSize - overlap) < |text|
      invariant chunks == spec[..|chunks|]
      decreases |text| - start
    {
      NextChunk(text, chunkSize, overlap, |chunks|);
      var end := start + chunkSize;
      var chunk := Slice(text, start, end);
      chunks := chunks + [chunk];
      start := end - overlap;
      if start >= |text| {
        break;
      }
    }
    CountUnique(|text|, chunkSize - overlap, |chunks|);
  }
}
