/** Overlapping transcript chunks: the parameter checks of `SummaryProcessor.process_transcript`
    (backend/app/main.py) and the slicing of `TranscriptProcessor.process_transcript`
    (backend/app/transcript_processor.py). */
module TranscriptChunks {
  import opened Wrappers
  import opened Bytes

  // --------------------------------------------------------------- parameters

  datatype Refusal = EmptyText | ChunkSizeNotPositive | OverlapNegative

  /** The checks of `SummaryProcessor`: what it passes on. */
  method CheckParameters(text: string, chunkSize: int, overlap: int) returns (r: Result<(int, int), Refusal>)
    ensures r.Err? <==> text == "" || chunkSize <= 0 || overlap < 0
    ensures r.Ok? ==> var (size, o) := r.value; size == chunkSize && 0 <= o < size
    ensures r.Ok? ==> r.value.1 == if overlap < chunkSize then overlap else chunkSize - 1
  {
    if text == "" { return Err(EmptyText); }
    if chunkSize <= 0 { return Err(ChunkSizeNotPositive); }
    if overlap < 0 { return Err(OverlapNegative); }
    var size, o := chunkSize, overlap;
    if o >= size { o := size - 1; }
    var stepSize := size - o;
    if stepSize <= 0 { size := o + 1; }
    return Ok((size, o));
  }

  /** The step of `TranscriptProcessor`, which repeats the guard with another correction. */
  function Step(chunkSize: int, overlap: int): (step: int)
    ensures chunkSize > 0 ==> step > 0
    ensures overlap < chunkSize ==> step == chunkSize - overlap
  {
    if chunkSize - overlap <= 0 then
      var adjusted := if chunkSize - 100 > 0 then chunkSize - 100 else 0;
      chunkSize - adjusted
    else chunkSize - overlap
  }

  // -------------------------------------------------------------------- slices

  /** Python's `text[i:i + size]`. */
  function Slice(text: string, i: nat, size: nat): string
    requires i <= |text|
  {
    if i + size <= |text| then text[i..i + size] else text[i..]
  }

  /** The chunks from position `i` on. */
  function ChunksFrom(text: string, size: nat, step: nat, i: nat): seq<string>
    requires step > 0
    decreases if i < |text| then |text| - i else 0
  {
    if i >= |text| then [] else [Slice(text, i, size)] + ChunksFrom(text, size, step, i + step)
  }

  method SplitTranscript(text: string, chunkSize: int, overlap: int) returns (chunks: seq<string>)
    requires chunkSize > 0
    ensures chunks == ChunksFrom(text, chunkSize, Step(chunkSize, overlap), 0)
  {
    var step := chunkSize - overlap;
    if step <= 0 {
      var adjusted := if chunkSize - 100 > 0 then chunkSize - 100 else 0;
      step := chunkSize - adjusted;
    }
    chunks := [];
    var i := 0;
    while i < |text|
      invariant i >= 0 && step == Step(chunkSize, overlap)
      invariant chunks + ChunksFrom(text, chunkSize, step, i) == ChunksFrom(text, chunkSize, step, 0)
      decreases |text| - i
    {
      Regroup(chunks, [Slice(text, i, chunkSize)], ChunksFrom(text, chunkSize, step, i + step));
      chunks := chunks + [Slice(text, i, chunkSize)];
      i := i + step;
    }
  }

  // ----------------------------------------------------------------- properties

  /** Where chunk `k` starts. */
  function Start(k: nat, step: nat): nat {
    if k == 0 then 0 else Start(k - 1, step) + step
  }

  lemma {:induction false} StartIsProduct(k: nat, step: nat)
    ensures Start(k, step) == k * step
  {
    if k > 0 { StartIsProduct(k - 1, step); }
  }

  /** How many steps cover `n` characters. */
  function Steps(n: nat, step: nat): nat
    requires step > 0
  {
    if n == 0 then 0 else if n <= step then 1 else 1 + Steps(n - step, step)
  }

  /** `Steps` is n / step, rounded up. */
  lemma {:induction false} StepsIsCeiling(n: nat, step: nat)
    requires step > 0
    ensures Start(Steps(n, step), step) >= n
    ensures n > 0 ==> Steps(n, step) > 0 && Start(Steps(n, step) - 1, step) < n
  {
    if n > step { StepsIsCeiling(n - step, step); }
  }

  lemma {:induction false} StartGrows(k: nat, l: nat, step: nat)
    requires k <= l
    ensures Start(k, step) <= Start(l, step)
  {
    if k < l { StartGrows(k, l - 1, step); }
  }

  /** The number of chunks is the length divided by the step, rounded up. */
  lemma {:induction false} ChunkCount(text: string, size: nat, step: nat, i: nat)
    requires step > 0
    ensures |ChunksFrom(text, size, step, i)| == if i < |text| then Steps(|text| - i, step) else 0
    decreases if i < |text| then |text| - i else 0
  {
    if i < |text| { ChunkCount(text, size, step, i + step); }
  }

  /** Chunk `k` is the slice of the text at `k` steps. */
  lemma {:induction false} ChunkAt(text: string, size: nat, step: nat, i: nat, k: nat)
    requires step > 0 && i + Start(k, step) < |text|
    ensures k < |ChunksFrom(text, size, step, i)|
    ensures ChunksFrom(text, size, step, i)[k] == Slice(text, i + Start(k, step), size)
    decreases k
  {
    if k > 0 {
      ChunkAt(text, size, step, i + step, k - 1);
      assert ChunksFrom(text, size, step, i)[k] == ChunksFrom(text, size, step, i + step)[k - 1];
    }
  }

  /** The first `step` characters of every chunk. */
  function Head(chunk: string, step: nat): string { if step <= |chunk| then chunk[..step] else chunk }

  function Heads(chunks: seq<string>, step: nat): seq<string> {
    seq(|chunks|, k requires 0 <= k < |chunks| => Head(chunks[k], step))
  }

  lemma {:induction false} HeadsCons(chunk: string, rest: seq<string>, step: nat)
    ensures Concat(Heads([chunk] + rest, step)) == Head(chunk, step) + Concat(Heads(rest, step))
  {
    assert Heads([chunk] + rest, step) == [Head(chunk, step)] + Heads(rest, step);
    ConcatCons(Head(chunk, step), Heads(rest, step));
  }

  /** The heads, joined, are the text: nothing is lost and nothing but the overlap is repeated. */
  lemma {:induction false} HeadsRebuild(text: string, size: nat, step: nat, i: nat)
    requires 0 < step <= size
    ensures Concat(Heads(ChunksFrom(text, size, step, i), step)) == if i < |text| then text[i..] else ""
    decreases if i < |text| then |text| - i else 0
  {
    if i < |text| {
      HeadsRebuild(text, size, step, i + step);
      HeadsOn(text, size, step, i, i + step, ChunksFrom(text, size, step, i + step));
    } else {
      assert Heads([], step) == [];
    }
  }

  lemma {:induction false} HeadsOn(text: string, size: nat, step: nat, i: nat, next: nat, rest: seq<string>)
    requires 0 < step <= size && i < |text| && next == i + step && rest == ChunksFrom(text, size, step, next)
    requires Concat(Heads(rest, step)) == if next < |text| then text[next..] else ""
    ensures Concat(Heads(ChunksFrom(text, size, step, i), step)) == text[i..]
  {
    HeadsCons(Slice(text, i, size), rest, step);
    HeadOf(text, size, step, i);
  }

  lemma {:induction false} HeadOf(text: string, size: nat, step: nat, i: nat)
    requires 0 < step <= size && i < |text|
    ensures Head(Slice(text, i, size), step) + (if i + step < |text| then text[i + step..] else "") == text[i..]
  {}

  /** A chunk that is there begins inside the text. */
  lemma {:induction false} ChunkIs(text: string, size: nat, step: nat, k: nat)
    requires step > 0 && k < |ChunksFrom(text, size, step, 0)|
    ensures Start(k, step) < |text|
    ensures ChunksFrom(text, size, step, 0)[k] == Slice(text, Start(k, step), size)
  {
    ChunkCount(text, size, step, 0);
    StepsIsCeiling(|text|, step);
    StartGrows(k, Steps(|text|, step) - 1, step);
    ChunkAt(text, size, step, 0, k);
  }

  /** What follows the head of a chunk is the beginning of the next chunk. */
  lemma {:induction false} TailBeginsNext(text: string, size: nat, step: nat, k: nat)
    requires 0 < step <= size && k + 1 < |ChunksFrom(text, size, step, 0)|
    ensures var cs := ChunksFrom(text, size, step, 0);
            step <= |cs[k]| && cs[k][step..] <= cs[k + 1]
  {
    ChunkIs(text, size, step, k);
    ChunkIs(text, size, step, k + 1);
    SliceTail(text, Start(k, step), size, step);
  }

  lemma {:induction false} SliceTail(text: string, a: nat, size: nat, step: nat)
    requires 0 < step <= size && a + step < |text|
    ensures step <= |Slice(text, a, size)| && Slice(text, a, size)[step..] <= Slice(text, a + step, size)
  {}

  /** Characters `a` to `b` of the text lie within the chunk that starts at `start`. */
  predicate Covers(start: nat, size: nat, a: nat, b: nat) {
    start <= a && b <= start + size
  }

  lemma {:induction false} StepBefore(a: nat, step: nat) returns (k: nat)
    requires step > 0
    ensures Start(k, step) <= a < Start(k, step) + step
  {
    k := 0;
    if a >= step {
      k := StepBefore(a - step, step);
      k := k + 1;
    }
  }

  /** Every substring of at most overlap + 1 characters lies whole in some chunk. */
  lemma {:induction false} ShortTextsAreWhole(text: string, size: nat, overlap: nat, a: nat, b: nat) returns (k: nat)
    requires overlap < size && a < b <= |text| && b - a <= overlap + 1
    ensures k < |ChunksFrom(text, size, size - overlap, 0)| && Covers(Start(k, size - overlap), size, a, b)
    ensures Contains(ChunksFrom(text, size, size - overlap, 0)[k], text[a..b])
  {
    var step := size - overlap;
    k := StepBefore(a, step);
    ChunkAt(text, size, step, 0, k);
    SubSlice(text, Start(k, step), size, a, b);
  }

  lemma {:induction false} SubSlice(text: string, start: nat, size: nat, a: nat, b: nat)
    requires start <= a < b <= |text| && b <= start + size
    ensures Contains(Slice(text, start, size), text[a..b])
  {
    var (c, p, i) := (Slice(text, start, size), text[a..b], a - start);
    SliceOfSlice(text, start, start + |c|, i, b - start);
    assert OccursAt(c, p, i);
  }

  /** The bound is exact: in any text longer than a chunk, some overlap + 2 characters lie in no chunk. */
  lemma {:induction false} LongerTextsAreCut(text: string, size: nat, overlap: nat, k: nat)
    requires overlap < size < |text|
    ensures var a := size - overlap - 1;
            a + overlap + 2 <= |text| && !Covers(Start(k, size - overlap), size, a, a + overlap + 2)
  {
    if k > 0 { StartGrows(1, k, size - overlap); }
  }
}
