/** `chunk_text`: a sliding window of `chunkSize` characters that advances by
    `chunkSize - overlap` until it starts past the end of the text. */
module Chunking {

  /** `s[start:end]` as Python evaluates it for a non-negative `start`: a
      negative `end` counts from the back, and both ends are clamped. */
  function PySlice(s: string, start: nat, end: int): (r: string)
    ensures |r| <= |s|
    ensures r != [] ==> start + |r| <= |s| && r == s[start..start + |r|]
    ensures 0 <= start <= end <= |s| ==> r == s[start..end]
    ensures start <= |s| <= end ==> r == s[start..]
    ensures end >= start ==> |r| <= end - start
    ensures end < start && (end >= 0 || |s| + end <= start) ==> r == []
    ensures end < 0 && start < |s| + end ==> r == s[start..|s| + end]
  {
    var e := if end < 0 then (if |s| + end < 0 then 0 else |s| + end)
             else if end > |s| then |s| else end;
    if start >= e then [] else s[start..e]
  }

  /** The loop ends: it never runs on an empty text, and otherwise `start` must
      advance at every iteration. */
  predicate Terminates(text: string, chunkSize: int, overlap: int) {
    |text| == 0 || chunkSize - overlap > 0
  }

  /** The chunks the loop appends once `start` has reached `start`. */
  function ChunksFrom(text: string, chunkSize: int, overlap: int, start: nat): (r: seq<string>)
    requires Terminates(text, chunkSize, overlap)
    ensures r == [] <==> start >= |text|
    ensures forall k :: 0 <= k < |r| ==> |r[k]| <= |text|
    decreases |text| - start
  {
    if start >= |text| then []
    else [PySlice(text, start, start + chunkSize)] + ChunksFrom(text, chunkSize, overlap, start + (chunkSize - overlap))
  }

  /** `chunk_text(text, chunk_size, overlap)`. */
  function ChunkText(text: string, chunkSize: int, overlap: int): (r: seq<string>)
    requires Terminates(text, chunkSize, overlap)
    ensures r == [] <==> text == []
    ensures forall k :: 0 <= k < |r| ==> |r[k]| <= |text|
  {
    ChunksFrom(text, chunkSize, overlap, 0)
  }

  /** The while loop of `chunk_text`; it computes `ChunkText`. */
  method ChunkTextLoop(text: string, chunkSize: int, overlap: int) returns (chunks: seq<string>)
    requires Terminates(text, chunkSize, overlap)
    ensures chunks == ChunkText(text, chunkSize, overlap)
  {
    chunks := [];
    var start: nat := 0;
    while start < |text|
      invariant chunks + ChunksFrom(text, chunkSize, overlap, start) == ChunkText(text, chunkSize, overlap)
      decreases |text| - start
    {
      chunks := chunks + [PySlice(text, start, start + chunkSize)];
      start := start + (chunkSize - overlap);
    }
  }

  /** The value of `start` after `n` iterations of the loop, as a Python int:
      it goes negative when the overlap exceeds the chunk size. */
  function StartAfter(chunkSize: int, overlap: int, n: nat): (start: int)
    ensures chunkSize - overlap > 0 ==> start >= 0
  {
    if n == 0 then 0 else StartAfter(chunkSize, overlap, n - 1) + (chunkSize - overlap)
  }

  /** On a non-empty text with `chunkSize - overlap <= 0` the guard
      `start < len(text)` holds after every iteration, so the loop never ends. */
  lemma {:induction false} NoStrideNeverEnds(text: string, chunkSize: int, overlap: int, n: nat)
    requires |text| > 0 && chunkSize - overlap <= 0
    ensures StartAfter(chunkSize, overlap, n) <= 0 < |text|
  {
    if n > 0 {
      NoStrideNeverEnds(text, chunkSize, overlap, n - 1);
    }
  }

  /** With a positive stride the `n`-th value of `start` is window start `n`. */
  lemma {:induction false} StartAfterIsWindowStart(chunkSize: int, overlap: int, n: nat)
    requires chunkSize - overlap > 0
    ensures StartAfter(chunkSize, overlap, n) == WindowStart(n, chunkSize - overlap)
  {
    if n > 0 {
      StartAfterIsWindowStart(chunkSize, overlap, n - 1);
      WindowStartNext(n - 1, chunkSize - overlap);
    }
  }

  /** ceil(n / step), the number of window positions below `n`. */
  function CeilDiv(n: nat, step: int): nat
    requires step > 0
  {
    (n + step - 1) / step
  }

  lemma {:induction false} ChunksFromCount(text: string, chunkSize: int, overlap: int, start: nat, c: nat)
    requires chunkSize - overlap > 0
    requires start + c * (chunkSize - overlap) >= |text|
    requires c == 0 || start + (c - 1) * (chunkSize - overlap) < |text|
    ensures |ChunksFrom(text, chunkSize, overlap, start)| == c
    decreases c
  {
    var step := chunkSize - overlap;
    if c > 0 {
      assert start + step + (c - 1) * step == start + c * step;
      if c > 1 {
        assert start + step + (c - 2) * step == start + (c - 1) * step;
      }
      ChunksFromCount(text, chunkSize, overlap, start + step, c - 1);
    }
  }

  /** Empty text yields no chunks; otherwise there are ceil(|text| / step)
      chunks, one per window start below the end. */
  lemma ChunkCount(text: string, chunkSize: int, overlap: int)
    requires Terminates(text, chunkSize, overlap)
    ensures text == [] ==> ChunkText(text, chunkSize, overlap) == []
    ensures chunkSize - overlap > 0 ==>
      |ChunkText(text, chunkSize, overlap)| == CeilDiv(|text|, chunkSize - overlap)
  {
    if chunkSize - overlap > 0 {
      var step := chunkSize - overlap;
      var n := |text|;
      var c := CeilDiv(n, step);
      var rem := (n + step - 1) % step;
      assert n + step - 1 == c * step + rem && 0 <= rem < step;
      assert c * step >= n;
      assert c == 0 || (c - 1) * step < n by {
        if c > 0 {
          assert (c - 1) * step == c * step - step;
        }
      }
      ChunksFromCount(text, chunkSize, overlap, 0, c);
    }
  }

  /** Where window `i` starts: `i * step`. */
  function WindowStart(i: nat, step: int): nat
    requires step > 0
  {
    i * step
  }

  lemma ChunksFromAt(text: string, chunkSize: int, overlap: int, start: nat, i: nat)
    requires chunkSize - overlap > 0
    requires i < |ChunksFrom(text, chunkSize, overlap, start)|
    ensures 0 <= start + StartAfter(chunkSize, overlap, i) < |text|
    ensures ChunksFrom(text, chunkSize, overlap, start)[i]
         == PySlice(text, start + StartAfter(chunkSize, overlap, i), start + StartAfter(chunkSize, overlap, i) + chunkSize)
  {
    ChunksFromShift(text, chunkSize, overlap, start, i);
    ChunksFromHead(text, chunkSize, overlap, start + StartAfter(chunkSize, overlap, i));
  }

  /** Chunk `i` from `start` is the first chunk the loop appends once `start`
      has advanced `i` times. */
  lemma {:induction false} ChunksFromShift(text: string, chunkSize: int, overlap: int, start: nat, i: nat)
    requires chunkSize - overlap > 0
    requires i < |ChunksFrom(text, chunkSize, overlap, start)|
    ensures 0 <= start + StartAfter(chunkSize, overlap, i) < |text|
    ensures ChunksFrom(text, chunkSize, overlap, start)[i]
         == ChunksFrom(text, chunkSize, overlap, start + StartAfter(chunkSize, overlap, i))[0]
    decreases i
  {
    var step := chunkSize - overlap;
    if i > 0 {
      ChunksFromTail(text, chunkSize, overlap, start, i);
      ChunksFromShift(text, chunkSize, overlap, start + step, i - 1);
      assert start + step + StartAfter(chunkSize, overlap, i - 1) == start + StartAfter(chunkSize, overlap, i);
    }
  }

  /** The first chunk the loop appends is the window at `start`. */
  lemma ChunksFromHead(text: string, chunkSize: int, overlap: int, start: nat)
    requires chunkSize - overlap > 0 && start < |text|
    ensures ChunksFrom(text, chunkSize, overlap, start)[0] == PySlice(text, start, start + chunkSize)
  {
  }

  /** The later chunks are those the loop appends from the next `start`. */
  lemma ChunksFromTail(text: string, chunkSize: int, overlap: int, start: nat, i: nat)
    requires chunkSize - overlap > 0
    requires 0 < i < |ChunksFrom(text, chunkSize, overlap, start)|
    ensures start < |text|
    ensures i - 1 < |ChunksFrom(text, chunkSize, overlap, start + (chunkSize - overlap))|
    ensures ChunksFrom(text, chunkSize, overlap, start)[i] == ChunksFrom(text, chunkSize, overlap, start + (chunkSize - overlap))[i - 1]
  {
  }

  lemma WindowStartNext(i: nat, step: int)
    requires step > 0
    ensures WindowStart(0, step) == 0
    ensures WindowStart(i, step) + step == WindowStart(i + 1, step)
  {
  }

  /** Chunk `i` is the window `text[i*step : i*step + chunkSize]`, and its
      start lies inside the text. */
  lemma ChunkAt(text: string, chunkSize: int, overlap: int, i: nat)
    requires chunkSize - overlap > 0
    requires i < |ChunkText(text, chunkSize, overlap)|
    ensures WindowStart(i, chunkSize - overlap) < |text|
    ensures ChunkText(text, chunkSize, overlap)[i]
         == PySlice(text, WindowStart(i, chunkSize - overlap), WindowStart(i, chunkSize - overlap) + chunkSize)
  {
    ChunksFromAt(text, chunkSize, overlap, 0, i);
    StartAfterIsWindowStart(chunkSize, overlap, i);
  }

  /** For a positive chunk size, chunk `i` is `text[i*step .. min(i*step + chunkSize, |text|)]`:
      non-empty and at most `chunkSize` long. */
  lemma ChunkWindow(text: string, chunkSize: int, overlap: int, i: nat)
    requires chunkSize > 0 && chunkSize - overlap > 0
    requires i < |ChunkText(text, chunkSize, overlap)|
    ensures var a := WindowStart(i, chunkSize - overlap);
      var b := if a + chunkSize < |text| then a + chunkSize else |text|;
      && a < b <= |text|
      && ChunkText(text, chunkSize, overlap)[i] == text[a..b]
    ensures 0 < |ChunkText(text, chunkSize, overlap)[i]| <= chunkSize
  {
    ChunkAt(text, chunkSize, overlap, i);
    var a := WindowStart(i, chunkSize - overlap);
    SliceWindow(text, a, chunkSize);
  }

  /** `text[a : a + size]` for a start inside the text and a positive size. */
  lemma SliceWindow(text: string, a: nat, size: int)
    requires a < |text| && size > 0
    ensures var b := if a + size < |text| then a + size else |text|;
      a < b && PySlice(text, a, a + size) == text[a..b]
  {
  }

  /** The first chunk is a prefix of a non-empty text. */
  lemma FirstChunkIsPrefix(text: string, chunkSize: int, overlap: int)
    requires text != [] && chunkSize > 0 && chunkSize - overlap > 0
    ensures |ChunkText(text, chunkSize, overlap)| > 0
    ensures var c := ChunkText(text, chunkSize, overlap)[0];
      |c| <= |text| && c == text[..|c|]
  {
    ChunkCount(text, chunkSize, overlap);
    ChunkWindow(text, chunkSize, overlap, 0);
  }

  /** With `0 <= overlap < chunkSize`, position `p` of the text lies in chunk
      `p / step`, at offset `p - (p / step) * step`. */
  lemma ChunksCover(text: string, chunkSize: int, overlap: int, p: nat)
    requires 0 <= overlap < chunkSize && p < |text|
    ensures var step := chunkSize - overlap;
      var i := p / step;
      var chunks := ChunkText(text, chunkSize, overlap);
      && i < |chunks|
      && WindowStart(i, step) <= p < WindowStart(i, step) + |chunks[i]|
      && chunks[i][p - WindowStart(i, step)] == text[p]
  {
    var step := chunkSize - overlap;
    var i := p / step;
    var chunks := ChunkText(text, chunkSize, overlap);
    WindowIndex(p, step);
    assert i < |chunks| by {
      ChunkCount(text, chunkSize, overlap);
      CeilDivBound(|text|, step);
      FactorLess(i, CeilDiv(|text|, step), step);
    }
    ChunkWindow(text, chunkSize, overlap, i);
    var a := WindowStart(i, step);
    assert a <= p < a + step;
    var b := if a + chunkSize < |text| then a + chunkSize else |text|;
    assert chunks[i] == text[a..b];
    assert a <= p < b;
    assert chunks[i][p - a] == text[p];
  }

  /** Position `p` lies in the window that starts at `(p / step) * step`. */
  lemma WindowIndex(p: nat, step: int)
    requires step > 0
    ensures WindowStart(p / step, step) <= p < WindowStart(p / step, step) + step
  {
  }

  /** `CeilDiv(n, step)` windows of width `step` reach the end of `n` positions. */
  lemma CeilDivBound(n: nat, step: int)
    requires step > 0
    ensures CeilDiv(n, step) * step >= n
  {
    var rem := (n + step - 1) % step;
    assert n + step - 1 == CeilDiv(n, step) * step + rem;
  }

  lemma FactorLess(a: int, b: int, k: int)
    requires k > 0 && a * k < b * k
    ensures a < b
  {
    assert (b - a) * k == b * k - a * k;
  }
}
