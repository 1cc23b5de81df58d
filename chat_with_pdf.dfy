/** The chunker and the retrieval step of Day_05_Chat_with_PDF/main.py.

    `split_text` cuts the text into windows of `chunk_size` characters whose starts are
    `chunk_size - overlap` apart; `find_best_chunk` scores every chunk against the query, sorts
    the scored chunks by descending score and returns element 0. The score of a chunk (an
    embedding round trip and a cosine) is the parameter `score`. */
module ChatWithPdf {
  import opened Ranking

  // ---------------------------------------------------------------------------------------
  // Python slicing

  /** Where a slice bound `k` lands in a sequence of length `n`: a negative bound counts from
      the end, and the result is clamped to `0..n`. */
  function SliceBound(k: int, n: nat): (b: nat)
    ensures b <= n
    ensures 0 <= k <= n ==> b == k
    ensures k >= n ==> b == n
  {
    if k < 0 then (if k + n < 0 then 0 else k + n)
    else if k > n then n
    else k
  }

  /** Python's `s[lo:hi]`. */
  function Slice(s: string, lo: int, hi: int): (r: string)
    ensures 0 <= lo <= hi <= |s| ==> r == s[lo..hi]
  {
    var a, b := SliceBound(lo, |s|), SliceBound(hi, |s|);
    if a < b then s[a..b] else []
  }

  /** Python's `c[k:]` for `k >= 0`: empty when `k` is past the end. */
  function DropFirst(c: string, k: nat): (r: string)
    ensures k <= |c| ==> r == c[k..]
    ensures k >= |c| ==> r == []
  {
    if k <= |c| then c[k..] else []
  }

  /** `c[k:]` is `c[k:len(c)]`: the suffix is the slice the chunker takes, ending at the length. */
  lemma DropFirstIsSlice(c: string, k: nat)
    ensures DropFirst(c, k) == Slice(c, k, |c|)
  {
  }

  // ---------------------------------------------------------------------------------------
  // The chunker

  /** How many times the loop of `split_text` runs on a text of length `n`: the number of
      multiples of `step` below `n`. */
  function NumChunks(n: int, step: int): (k: nat)
    requires step > 0
    ensures k == 0 <==> n <= 0
    decreases n
  {
    if n <= 0 then 0 else 1 + NumChunks(n - step, step)
  }

  /** Chunk number `i`: the slice starting at `i * step`. */
  function ChunkAt(text: string, chunkSize: int, step: int, i: int): string {
    Slice(text, i * step, i * step + chunkSize)
  }

  /** The list `split_text` returns, in closed form. */
  function Chunks(text: string, chunkSize: int, overlap: int): (cs: seq<string>)
    requires overlap < chunkSize
  {
    seq(NumChunks(|text|, chunkSize - overlap),
        i => ChunkAt(text, chunkSize, chunkSize - overlap, i))
  }

  /** `split_text(text, chunk_size, overlap)`. The loop advances `start` by
      `chunk_size - overlap`, so on a non-empty text it terminates only when
      `overlap < chunk_size`; an empty text skips the loop and gives `[]` for any sizes. */
  method SplitText(text: string, chunkSize: int := 1000, overlap: int := 100)
    returns (chunks: seq<string>)
    requires overlap < chunkSize || text == []
    ensures text == [] ==> chunks == []
    ensures overlap < chunkSize ==> chunks == Chunks(text, chunkSize, overlap)
  {
    ghost var step := chunkSize - overlap;
    chunks := [];
    var start := 0;
    while start < |text|
      invariant 0 <= start && (text == [] ==> chunks == [])
      invariant step > 0 ==> start == |chunks| * step
      invariant step > 0 ==> |chunks| + NumChunks(|text| - start, step) == NumChunks(|text|, step)
      invariant forall i :: 0 <= i < |chunks| ==> chunks[i] == ChunkAt(text, chunkSize, step, i)
      decreases |text| - start
    {
      var end := start + chunkSize;
      chunks := chunks + [Slice(text, start, end)];
      start := start + (chunkSize - overlap);
      assert start == (|chunks| - 1) * step + step == |chunks| * step;
    }
    assert step > 0 ==> |chunks| == NumChunks(|text|, step);
  }

  /** A chunk exists for every multiple of the step below the length, and for no other. */
  lemma {:induction false} NumChunksBounds(n: int, step: int)
    requires step > 0
    ensures NumChunks(n, step) * step >= n
    ensures n > 0 ==> (NumChunks(n, step) - 1) * step < n
  {
    if n > 0 {
      NumChunksBounds(n - step, step);
      var k := NumChunks(n - step, step);
      assert NumChunks(n, step) * step == k * step + step;
    }
  }

  /** The number of chunks is the length divided by the step, rounded up. */
  lemma {:induction false} NumChunksIsCeiling(n: nat, step: int)
    requires step > 0
    ensures NumChunks(n, step) == (n + step - 1) / step
  {
    var k := NumChunks(n, step);
    NumChunksBounds(n, step);
    if n == 0 {
      assert (step - 1) / step == 0;
    } else {
      // (k - 1) * step < n <= k * step, so k * step <= n + step - 1 < (k + 1) * step
      assert k * step <= n + step - 1 < (k + 1) * step;
      DivisionFromBounds(n + step - 1, step, k);
    }
  }

  /** Euclidean division is determined by the bounds on its quotient. */
  lemma DivisionFromBounds(m: int, d: int, q: int)
    requires d > 0 && q * d <= m < (q + 1) * d
    ensures m / d == q
  {
    var q', r' := m / d, m % d;
    assert m == q' * d + r' && 0 <= r' < d;
    if q' < q {
      assert (q' + 1) * d == q' * d + d;
      MultiplyMonotone(q' + 1, q, d);
    } else if q' > q {
      assert (q + 1) * d == q * d + d;
      MultiplyMonotone(q + 1, q', d);
    }
  }

  lemma MultiplyMonotone(a: int, b: int, d: int)
    requires a <= b && d > 0
    ensures a * d <= b * d
  {
    var c := b - a;
    assert b * d == a * d + c * d;
    assert c * d >= 0;
  }

  /** Every chunk starts inside the text. */
  lemma ChunkStartsInside(n: int, step: int, i: nat)
    requires step > 0 && i < NumChunks(n, step)
    ensures 0 <= i * step < n
  {
    NumChunksBounds(n, step);
    var k := NumChunks(n, step);
    assert i <= k - 1;
    assert i * step <= (k - 1) * step;
  }

  /** Chunk `i` is `text[i * step : min(i * step + chunk_size, len(text))]`. */
  lemma ChunkIsWindow(text: string, chunkSize: int, overlap: int, i: nat)
    requires overlap < chunkSize && 0 < chunkSize
    requires i < |Chunks(text, chunkSize, overlap)|
    ensures var step := chunkSize - overlap;
      0 <= i * step < Min(i * step + chunkSize, |text|) &&
      Chunks(text, chunkSize, overlap)[i] == text[i * step .. Min(i * step + chunkSize, |text|)]
  {
    ChunkStartsInside(|text|, chunkSize - overlap, i);
  }

  /** The chunk count: `ceil(len(text) / step)` chunks, none for an empty text, each
      non-empty and at most `chunk_size` long. */
  lemma ChunkCount(text: string, chunkSize: int, overlap: int)
    requires overlap < chunkSize
    ensures |Chunks(text, chunkSize, overlap)| == (|text| + chunkSize - overlap - 1) / (chunkSize - overlap)
    ensures Chunks(text, chunkSize, overlap) == [] <==> text == []
  {
    NumChunksIsCeiling(|text|, chunkSize - overlap);
    NumChunksBounds(|text|, chunkSize - overlap);
  }

  /** With a positive chunk size every chunk is non-empty and at most `chunk_size` long. */
  lemma ChunkLengths(text: string, chunkSize: int, overlap: int, i: nat)
    requires overlap < chunkSize && 0 < chunkSize
    requires i < |Chunks(text, chunkSize, overlap)|
    ensures 1 <= |Chunks(text, chunkSize, overlap)[i]| <= chunkSize
  {
    ChunkIsWindow(text, chunkSize, overlap, i);
  }

  /** Neighbouring chunks overlap: what follows the first `step` characters of chunk `i`
      (Python's `chunks[i][step:]`) opens chunk `i + 1`. With `overlap >= 0` the chunk is at
      least `step` long, and the shared part is `overlap` characters long unless chunk `i` is
      cut short by the end of the text; with a negative overlap it is empty. */
  lemma ConsecutiveChunksOverlap(text: string, chunkSize: int, overlap: int, i: nat)
    requires overlap < chunkSize && 0 < chunkSize
    requires i + 1 < |Chunks(text, chunkSize, overlap)|
    ensures var cs, step := Chunks(text, chunkSize, overlap), chunkSize - overlap;
      DropFirst(cs[i], step) <= cs[i + 1] &&
      (0 <= overlap ==> step <= |cs[i]|) &&
      (overlap < 0 ==> DropFirst(cs[i], step) == []) &&
      (0 <= overlap && |cs[i]| == chunkSize ==> |DropFirst(cs[i], step)| == overlap)
  {
    var cs, step := Chunks(text, chunkSize, overlap), chunkSize - overlap;
    ChunkIsWindow(text, chunkSize, overlap, i);
    ChunkIsWindow(text, chunkSize, overlap, i + 1);
    assert (i + 1) * step == i * step + step;
  }

  /** The example of a redundant final chunk: a 1000-character text with the default sizes
      gives two chunks, and the second lies wholly inside the first. */
  lemma RedundantFinalChunk(text: string)
    requires |text| == 1000
    ensures var cs := Chunks(text, 1000, 100);
      |cs| == 2 && cs[0] == text && cs[1] == text[900..]
  {
    assert NumChunks(1000, 900) == 1 + NumChunks(100, 900);
    assert NumChunks(100, 900) == 1 + NumChunks(-800, 900);
  }

  // ---------------------------------------------------------------------------------------
  // Putting the text back together

  /** Concatenate every chunk with its first `overlap` characters dropped. */
  function DropOverlaps(cs: seq<string>, overlap: nat): string {
    if cs == [] then [] else DropFirst(cs[0], overlap) + DropOverlaps(cs[1..], overlap)
  }

  /** `chunks[0]` followed by every later chunk without its overlap. */
  function Reassemble(cs: seq<string>, overlap: nat): string {
    if cs == [] then [] else cs[0] + DropOverlaps(cs[1..], overlap)
  }

  function Min(a: int, b: int): int { if a <= b then a else b }

  /** `cs` lists windows of `text`: chunk `i` starts at `i * step`, inside the text, and runs
      for `chunkSize` characters or to the end of the text. */
  predicate AreWindows(text: string, cs: seq<string>, chunkSize: int, step: int) {
    forall i :: 0 <= i < |cs| ==>
      0 <= i * step < Min(i * step + chunkSize, |text|) &&
      cs[i] == text[i * step .. Min(i * step + chunkSize, |text|)]
  }

  lemma ChunksAreWindows(text: string, chunkSize: int, overlap: int)
    requires overlap < chunkSize && 0 < chunkSize
    ensures AreWindows(text, Chunks(text, chunkSize, overlap), chunkSize, chunkSize - overlap)
  {
    var cs, step := Chunks(text, chunkSize, overlap), chunkSize - overlap;
    forall i | 0 <= i < |cs|
      ensures 0 <= i * step < Min(i * step + chunkSize, |text|)
      ensures cs[i] == text[i * step .. Min(i * step + chunkSize, |text|)]
    {
      ChunkIsWindow(text, chunkSize, overlap, i);
    }
  }

  /** Chunk `j` without its first `overlap` characters is the text from `start + overlap` to
      the end of the window. */
  lemma WindowWithoutOverlap(text: string, cs: seq<string>, overlap: nat, step: int, j: nat, start: int)
    requires step > 0 && AreWindows(text, cs, step + overlap, step)
    requires j < |cs| && start == j * step
    ensures Min(start + overlap, |text|) <= Min(start + step + overlap, |text|)
    ensures DropFirst(cs[j], overlap) == text[Min(start + overlap, |text|) .. Min(start + step + overlap, |text|)]
  {
    var mid := Min(start + step + overlap, |text|);
    assert 0 <= start < mid && cs[j] == text[start .. mid];
  }

  /** The windows from number `j` (starting at `start`) on, without their overlaps, form the
      text from `start + overlap` on. */
  lemma {:induction false} DropOverlapsSuffix(text: string, cs: seq<string>, overlap: nat, step: int,
                                              j: nat, start: int)
    requires step > 0 && AreWindows(text, cs, step + overlap, step)
    requires |cs| * step >= |text|
    requires 1 <= j <= |cs| && start == j * step
    ensures 0 <= start
    ensures DropOverlaps(cs[j..], overlap) == text[Min(start + overlap, |text|)..]
    decreases |cs| - j
  {
    var n := |text|;
    assert 0 <= start by {
      MultiplyMonotone(0, j, step);
    }
    if j < |cs| {
      assert (j + 1) * step == start + step;
      DropOverlapsSuffix(text, cs, overlap, step, j + 1, start + step);
      var lo, mid := Min(start + overlap, n), Min(start + step + overlap, n);
      WindowWithoutOverlap(text, cs, overlap, step, j, start);
      assert cs[j..][1..] == cs[j + 1..];
      assert text[lo..mid] + text[mid..] == text[lo..];
    }
  }

  /** Windows that cover the text reassemble to it. */
  lemma ReassembleWindows(text: string, cs: seq<string>, overlap: nat, step: int)
    requires step > 0 && 1 <= |cs| && |cs| * step >= |text|
    requires AreWindows(text, cs, step + overlap, step)
    ensures Reassemble(cs, overlap) == text
  {
    DropOverlapsSuffix(text, cs, overlap, step, 1, step);
    var mid := Min(step + overlap, |text|);
    assert cs[0] == text[..mid];
    assert Reassemble(cs, overlap) == text[..mid] + text[mid..];
    assert text[..mid] + text[mid..] == text;
  }

  /** No character is lost: the first chunk followed by the other chunks without their
      overlaps is the text. */
  lemma ReassembleChunks(text: string, chunkSize: int, overlap: int)
    requires 0 <= overlap < chunkSize
    ensures Reassemble(Chunks(text, chunkSize, overlap), overlap) == text
  {
    var cs, step := Chunks(text, chunkSize, overlap), chunkSize - overlap;
    if text != [] {
      assert |cs| >= 1;
      ChunksAreWindows(text, chunkSize, overlap);
      NumChunksBounds(|text|, step);
      ReassembleWindows(text, cs, overlap, step);
    }
  }

  // ---------------------------------------------------------------------------------------
  // Retrieval

  /** The list `find_best_chunk` builds before sorting: one `{"text", "score"}` per chunk,
      in chunk order, with the chunk text unchanged. */
  function ScoreChunks(chunks: seq<string>, score: string -> real): (entries: seq<ScoredText>)
    ensures |entries| == |chunks|
    ensures forall i :: 0 <= i < |chunks| ==> entries[i] == ScoredText(chunks[i], score(chunks[i]))
  {
    if chunks == [] then [] else [ScoredText(chunks[0], score(chunks[0]))] + ScoreChunks(chunks[1..], score)
  }

  /** `find_best_chunk(query, chunks)`: score every chunk, sort by descending score and return
      element 0, which is the earliest chunk with the largest score; an empty chunk list makes
      `chunk_data[0]` fail with IndexError. */
  method FindBestChunk(chunks: seq<string>, score: string -> real) returns (best: Lookup<ScoredText>)
    ensures best == IndexError <==> chunks == []
    ensures best.Ok? ==> best.value == SortByScore(ScoreChunks(chunks, score))[0]
    ensures best.Ok? ==> exists k :: (0 <= k < |chunks| &&
      best.value == ScoredText(chunks[k], score(chunks[k])) &&
      (forall j :: 0 <= j < |chunks| ==> score(chunks[j]) <= best.value.score) &&
      (forall j :: 0 <= j < k ==> score(chunks[j]) < best.value.score))
  {
    var chunkData: seq<ScoredText> := [];
    for n := 0 to |chunks|
      invariant |chunkData| == n
      invariant forall i :: 0 <= i < n ==> chunkData[i] == ScoredText(chunks[i], score(chunks[i]))
    {
      var chunk := chunks[n];
      var s := score(chunk);
      chunkData := chunkData + [ScoredText(chunk, s)];
    }
    assert chunkData == ScoreChunks(chunks, score);
    chunkData := SortByScore(chunkData);
    if |chunkData| == 0 {
      best := IndexError;
    } else {
      best := Ok(chunkData[0]);
      ghost var k := TopChunkIsFirstBest(chunks, score);
    }
  }

  /** Element 0 of the sorted scored chunks is the earliest chunk with the largest score. */
  lemma TopChunkIsFirstBest(chunks: seq<string>, score: string -> real) returns (k: nat)
    requires chunks != []
    ensures k < |chunks|
    ensures SortByScore(ScoreChunks(chunks, score))[0] == ScoredText(chunks[k], score(chunks[k]))
    ensures forall j :: 0 <= j < |chunks| ==> score(chunks[j]) <= score(chunks[k])
    ensures forall j :: 0 <= j < k ==> score(chunks[j]) < score(chunks[k])
  {
    var unsorted := ScoreChunks(chunks, score);
    SortedHeadIsFirstBest(unsorted);
    k := FirstBest(unsorted);
  }
}
