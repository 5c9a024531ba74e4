/** What the chunks returned by `chunk_text` (main.py:34-48) satisfy:
    their windows, their number, their overlaps, coverage of the text and
    reconstruction of it. */
module ChunkerProperties {
  import opened Chunker

  /** The i-th chunk is `text[i*step : i*step + chunkSize]` with Python's
      truncation at the end of the text, and its start lies inside the
      text. */
  lemma ChunkWindows(text: string, chunkSize: nat, overlap: nat)
    requires overlap < chunkSize
    ensures var cs := Chunks(text, chunkSize, overlap);
      var step := chunkSize - overlap;
      forall i :: 0 <= i < |cs| ==>
        i * step < |text| &&
        cs[i] == text[i * step .. Min(i * step + chunkSize, |text|)]
  {
    var cs := Chunks(text, chunkSize, overlap);
    var step := chunkSize - overlap;
    ChunkShape(text, chunkSize, overlap);
    forall i | 0 <= i < |cs|
      ensures i * step < |text|
      ensures cs[i] == text[i * step .. Min(i * step + chunkSize, |text|)]
    {
      ChunkAt(text, chunkSize, overlap, i);
      StartIsProduct(i, step);
    }
  }

  /** The number of chunks is the ceiling of `|text| / step`, written with
      integer division. */
  lemma ChunkCountIsCeiling(text: string, chunkSize: nat, overlap: nat)
    requires overlap < chunkSize
    ensures var step := chunkSize - overlap;
      |Chunks(text, chunkSize, overlap)| == (|text| + step - 1) / step
  {
    var step := chunkSize - overlap;
    var n := |text|;
    var q := (n + step - 1) / step;
    StartIsProduct(q, step);
    assert Start(q, step) + (n + step - 1) % step == n + step - 1;
    CountUnique(n, step, q);
  }

  /** A non-empty text gives exactly one chunk if and only if it fits in one
      step, and that chunk is the whole text. A text longer than the step
      but no longer than `chunkSize` gives more than one chunk. */
  lemma SingleChunk(text: string, chunkSize: nat, overlap: nat)
    requires overlap < chunkSize
    requires |text| > 0
    ensures var cs := Chunks(text, chunkSize, overlap);
      (|cs| == 1 <==> |text| <= chunkSize - overlap) &&
      (|cs| == 1 ==> cs[0] == text)
  {
    var cs := Chunks(text, chunkSize, overlap);
    var step := chunkSize - overlap;
    if |cs| >= 2 {
      StartIncreasing(0, 1, step);
      StartMonotone(1, |cs| - 1, step);
    }
  }

  /** The last chunk ends exactly at the end of the text. */
  lemma LastChunkReachesEnd(text: string, chunkSize: nat, overlap: nat)
    requires overlap < chunkSize
    requires |text| > 0
    ensures var cs := Chunks(text, chunkSize, overlap);
      Start(|cs| - 1, chunkSize - overlap) + |cs[|cs| - 1]| == |text|
  {
    var cs := Chunks(text, chunkSize, overlap);
    var step := chunkSize - overlap;
    ChunkAt(text, chunkSize, overlap, |cs| - 1);
    assert Start(|cs|, step) == Start(|cs| - 1, step) + step;
  }

  /** When the overlap is no larger than the step (as with the defaults),
      every chunk but the last two is a full window of `chunkSize`
      characters. */
  lemma FullChunks(text: string, chunkSize: nat, overlap: nat)
    requires overlap < chunkSize
    requires overlap <= chunkSize - overlap
    ensures var cs := Chunks(text, chunkSize, overlap);
      forall i :: 0 <= i < |cs| - 2 ==> |cs[i]| == chunkSize
  {
    var cs := Chunks(text, chunkSize, overlap);
    var step := chunkSize - overlap;
    ChunkShape(text, chunkSize, overlap);
    forall i | 0 <= i < |cs| - 2
      ensures |cs[i]| == chunkSize
    {
      ChunkAt(text, chunkSize, overlap, i);
      ChunkAt(text, chunkSize, overlap, |cs| - 1);
      StartMonotone(i + 2, |cs| - 1, step);
      assert Start(i + 2, step) == Start(i, step) + step + step;

    }
  }

  /** The last chunk adds nothing when its predecessor already reached the
      end of the text, which happens exactly when the last chunk is no longer
      than `overlap`; it is then a suffix of its predecessor. The cursor test
      of `chunk_text` is made after subtracting the overlap, so this trailing
      chunk is emitted. */
  lemma LastChunkRedundancy(text: string, chunkSize: nat, overlap: nat)
    requires overlap < chunkSize
    requires |Chunks(text, chunkSize, overlap)| >= 2
    ensures var cs := Chunks(text, chunkSize, overlap);
      var k := |cs|;
      (|cs[k - 1]| <= overlap <==> ChunkEnd(text, chunkSize, overlap, k - 2) == |text|) &&
      (|cs[k - 1]| <= overlap ==> cs[k - 2][|cs[k - 2]| - |cs[k - 1]| ..] == cs[k - 1])
  {
    var cs := Chunks(text, chunkSize, overlap);
    var k := |cs|;
    var step := chunkSize - overlap;
    ChunkShape(text, chunkSize, overlap);
    LastChunkReachesEnd(text, chunkSize, overlap);
    ChunkAt(text, chunkSize, overlap, k - 1);
    ChunkAt(text, chunkSize, overlap, k - 2);
    assert Start(k - 1, step) == Start(k - 2, step) + step;
  }

  /** Consecutive chunks share the overlap window: what follows the first
      step of a chunk is the start of the next chunk, `overlap` characters
      of it, or fewer where the text ends first. */
  lemma ConsecutiveOverlap(text: string, chunkSize: nat, overlap: nat, i: nat)
    requires overlap < chunkSize
    requires i + 1 < |Chunks(text, chunkSize, overlap)|
    ensures var cs := Chunks(text, chunkSize, overlap);
      chunkSize - overlap <= |cs[i]| &&
      cs[i][chunkSize - overlap ..] == cs[i + 1][.. Min(overlap, |cs[i + 1]|)]
  {
    var step := chunkSize - overlap;
    ChunkAt(text, chunkSize, overlap, i);
    ChunkAt(text, chunkSize, overlap, i + 1);
    assert Start(i + 1, step) == Start(i, step) + step;
  }

  /** The last cursor position at or before offset `j`. */
  lemma {:induction false} StartBefore(j: nat, step: nat) returns (i: nat)
    requires step > 0
    ensures Start(i, step) <= j < Start(i, step) + step
    decreases j
  {
    if j < step {
      i := 0;
    } else {
      var i' := StartBefore(j - step, step);
      i := i' + 1;
    }
  }

  /** Coverage: every character of the text lies in some chunk, at the
      position its offset gives. */
  lemma Coverage(text: string, chunkSize: nat, overlap: nat, j: nat)
    requires overlap < chunkSize
    requires j < |text|
    ensures var cs := Chunks(text, chunkSize, overlap);
      var step := chunkSize - overlap;
      exists i :: 0 <= i < |cs| &&
        Start(i, step) <= j < Start(i, step) + |cs[i]| &&
        cs[i][j - Start(i, step)] == text[j]
  {
    var cs := Chunks(text, chunkSize, overlap);
    var step := chunkSize - overlap;
    var i := StartBefore(j, step);
    BelowCount(|text|, step, i);
    ChunkAt(text, chunkSize, overlap, i);
    var lo := Start(i, step);
    var hi := ChunkEnd(text, chunkSize, overlap, i);
    assert lo <= j < hi;
    assert cs[i] == text[lo .. hi] && |cs[i]| == hi - lo;
    assert cs[i][j - lo] == text[j];
    assert 0 <= i < |cs| && lo <= j < lo + |cs[i]|;
  }

  /** `chunks[0] + chunks[1][overlap:] + ... + chunks[n-1][overlap:]`. */
  function Reassemble(cs: seq<string>, overlap: nat): string
  {
    if |cs| == 0 then []
    else if |cs| == 1 then cs[0]
    else Reassemble(cs[..|cs| - 1], overlap) + Drop(cs[|cs| - 1], overlap)
  }

  /** Reassembling one more chunk appends it without its leading
      `overlap` characters. */
  lemma ReassembleSnoc(cs: seq<string>, overlap: nat, j: nat)
    requires 2 <= j <= |cs|
    ensures Reassemble(cs[..j], overlap) == Reassemble(cs[..j - 1], overlap) + Drop(cs[j - 1], overlap)
  {
    var front := cs[..j];
    assert front[..j - 1] == cs[..j - 1];
    assert front[j - 1] == cs[j - 1];
  }

  /** Chunk i without its leading `overlap` characters continues the text
      exactly where chunk i - 1 stopped. */
  lemma ExtendByChunk(text: string, chunkSize: nat, overlap: nat, i: nat)
    requires overlap < chunkSize
    requires 1 <= i < |Chunks(text, chunkSize, overlap)|
    ensures var cs := Chunks(text, chunkSize, overlap);
      text[.. ChunkEnd(text, chunkSize, overlap, i - 1)] + Drop(cs[i], overlap) ==
      text[.. ChunkEnd(text, chunkSize, overlap, i)]
  {
    var cs := Chunks(text, chunkSize, overlap);
    var step := chunkSize - overlap;
    ChunkAt(text, chunkSize, overlap, i);
    assert Start(i, step) == Start(i - 1, step) + step;
    var before := ChunkEnd(text, chunkSize, overlap, i - 1);
    var after := ChunkEnd(text, chunkSize, overlap, i);
    if overlap < |cs[i]| {
      assert Drop(cs[i], overlap) == text[before .. after];
      assert text[..before] + text[before .. after] == text[..after];
    } else {
      assert before == after;
    }
  }

  /** Reassembling the first j chunks gives the text up to the end of the
      j-th chunk. */
  lemma {:induction false} ReassemblePrefix(text: string, chunkSize: nat, overlap: nat, j: nat)
    requires overlap < chunkSize
    requires 1 <= j <= |Chunks(text, chunkSize, overlap)|
    ensures Reassemble(Chunks(text, chunkSize, overlap)[..j], overlap) ==
      text[.. ChunkEnd(text, chunkSize, overlap, j - 1)]
  {
    var cs := Chunks(text, chunkSize, overlap);
    if j == 1 {
      ChunkAt(text, chunkSize, overlap, 0);
      assert cs[..1] == [cs[0]];
    } else {
      ReassemblePrefix(text, chunkSize, overlap, j - 1);
      ReassembleSnoc(cs, overlap, j);
      ExtendByChunk(text, chunkSize, overlap, j - 1);
    }
  }

  /** Reconstruction: dropping the overlap from every chunk but the first
      and concatenating gives back the text. */
  lemma Reconstruction(text: string, chunkSize: nat, overlap: nat)
    requires overlap < chunkSize
    ensures Reassemble(Chunks(text, chunkSize, overlap), overlap) == text
  {
    var cs := Chunks(text, chunkSize, overlap);
    var k := |cs|;
    if k > 0 {
      var step := chunkSize - overlap;
      assert ChunkEnd(text, chunkSize, overlap, k - 1) == |text| by {
        assert |text| <= Start(k, step) == Start(k - 1, step) + step;
      }
      ReassemblePrefix(text, chunkSize, overlap, k);
      assert cs[..k] == cs && text[..|text|] == text;
    }
  }

  /** With the defaults, a text of more than 5500 and at most 6000
      characters gives two chunks: the whole text, then everything after
      offset 5500 again. In particular a text of exactly 6000 characters
      gives two chunks, and the first chunk need not be a full window. */
  lemma JustOverOneStep(text: string)
    requires 5500 < |text| <= 6000
    ensures Chunks(text, DefaultChunkSize, DefaultOverlap) == [text, text[5500..]]
  {
    var cs := Chunks(text, DefaultChunkSize, DefaultOverlap);
    assert ChunkCount(|text| - 5500, 5500) == 1;
    assert |cs| == 2;
    ChunkAt(text, DefaultChunkSize, DefaultOverlap, 0);
    ChunkAt(text, DefaultChunkSize, DefaultOverlap, 1);
    assert Start(1, 5500) == 5500;
    assert cs[0] == text;
    assert cs[1] == text[5500..];
  }

  /** With the defaults, a text of 12000 characters gives three chunks,
      starting at offsets 0, 5500 and 11000. */
  lemma TwelveThousandCharacters(text: string)
    requires |text| == 12000
    ensures Chunks(text, DefaultChunkSize, DefaultOverlap) ==
      [text[..6000], text[5500..11500], text[11000..]]
  {
    var cs := Chunks(text, DefaultChunkSize, DefaultOverlap);
    assert ChunkCount(1000, 5500) == 1;
    assert ChunkCount(6500, 5500) == 2;
    assert |cs| == 3;
    ChunkAt(text, DefaultChunkSize, DefaultOverlap, 0);
    ChunkAt(text, DefaultChunkSize, DefaultOverlap, 1);
    ChunkAt(text, DefaultChunkSize, DefaultOverlap, 2);
    assert Start(2, 5500) == 11000;
    assert cs[0] == text[..6000];
    assert cs[1] == text[5500..11500];
    assert cs[2] == text[11000..];
  }
}
