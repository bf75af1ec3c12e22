/**
 * The overlapping word-window chunker `chunk_text`: the text is split on
 * whitespace and cut into windows of `chunkSize` words whose starts advance by
 * `chunkSize - overlap` words.
 */
module Chunker {
  import opened Wrappers
  import opened Arith
  import opened Text

  const DefaultChunkSize: int := 800
  const DefaultOverlap: int := 100

  /**
   * The source never leaves its loop when the window start cannot advance
   * (`overlap >= chunkSize`) and there is at least one word; the model reports
   * that configuration instead of diverging.
   */
  datatype ChunkError = NonTerminating

  /** `ws[lo:hi]` under Python's slice rules, for a non-negative start. */
  function PySlice(ws: seq<string>, lo: nat, hi: int): (r: seq<string>)
    ensures 0 <= lo <= hi ==> r == ws[Min(lo, |ws|)..Min(hi, |ws|)]
    ensures hi < 0 ==> r == ws[Min(lo, |ws|)..Max(Min(lo, |ws|), |ws| + hi)]
    ensures 0 <= hi < lo ==> r == []
  {
    var n := |ws|;
    var a := Min(lo, n);
    var b := if hi < 0 then Max(0, n + hi) else Min(hi, n);
    if a >= b then [] else ws[a..b]
  }

  // ---------------------------------------------------------------------------
  // The loop over window starts
  // ---------------------------------------------------------------------------

  /**
   * What a loop over the window starts `start, start + step, ...` below `n`
   * appends, when the iteration at start `t` appends `emit(t)`.
   */
  function Loop(n: nat, start: nat, step: nat, emit: nat -> seq<string>): seq<string>
    requires step > 0
    decreases n - start
  {
    if start >= n then [] else emit(start) + Loop(n, start + step, step, emit)
  }

  /**
   * One iteration of `chunk_text`'s loop: the window `words[start : start + chunkSize]`
   * re-joined with single spaces, appended when `strip()` leaves something.
   */
  function KeptWindow(words: seq<string>, start: nat, chunkSize: int): seq<string>
  {
    var chunk := JoinSpace(PySlice(words, start, start + chunkSize));
    if Strip(chunk) != [] then [chunk] else []
  }

  /**
   * A function value standing for `chunk_text`'s loop body over `words`:
   * at every start `t` it appends `KeptWindow(words, t, chunkSize)`.
   */
  lemma KeptBody(words: seq<string>, chunkSize: int) returns (emit: nat -> seq<string>)
    ensures IsKeptBody(words, chunkSize, emit)
  {
    emit := (t: nat) => KeptWindow(words, t, chunkSize);
  }

  /** `emit` is the loop body: at each start `t` it appends `KeptWindow(words, t, chunkSize)`. */
  ghost predicate IsKeptBody(words: seq<string>, chunkSize: int, emit: nat -> seq<string>)
  {
    forall t {:trigger KeptWindow(words, t, chunkSize)} :: emit(t) == KeptWindow(words, t, chunkSize)
  }

  /**
   * The body of `chunk_text`'s loop: `chunk = " ".join(words[start:end])`,
   * kept when `chunk.strip()` is not empty.
   */
  method ChunkAt(words: seq<string>, start: nat, chunkSize: int, ghost emit: nat -> seq<string>) returns (kept: seq<string>)
    requires IsKeptBody(words, chunkSize, emit)
    ensures kept == emit(start)
    ensures |kept| <= 1
    ensures AllWords(words) && chunkSize >= 1 && start < |words| ==> kept == [JoinSpace(Span(words, start, chunkSize))]
  {
    var chunk := JoinSpace(PySlice(words, start, start + chunkSize));
    if Strip(chunk) != [] {
      kept := [chunk];
    } else {
      kept := [];
    }
    assert kept == KeptWindow(words, start, chunkSize);
    if AllWords(words) && chunkSize >= 1 && start < |words| {
      KeptWindowWhole(words, start, chunkSize);
    }
  }

  /**
   * The `while start < len(words)` loop of `chunk_text` for a start that
   * advances by `step` words per iteration; `emit` names the loop body.
   */
  method CollectChunks(words: seq<string>, chunkSize: int, step: nat, ghost emit: nat -> seq<string>) returns (chunks: seq<string>)
    requires step > 0 && IsKeptBody(words, chunkSize, emit)
    ensures chunks == Loop(|words|, 0, step, emit)
  {
    chunks := [];
    var start: nat := 0;
    while start < |words|
      invariant chunks + Loop(|words|, start, step, emit) == Loop(|words|, 0, step, emit)
      decreases |words| - start
    {
      var kept := ChunkAt(words, start, chunkSize, emit);
      ghost var rest := Loop(|words|, start + step, step, emit);
      assert Loop(|words|, start, step, emit) == kept + rest;
      assert (chunks + kept) + rest == chunks + (kept + rest);
      chunks := chunks + kept;
      start := start + step;
    }
  }

  /**
   * `chunk_text(text, chunk_size, overlap)`. Text without words yields no
   * chunks whatever the configuration; otherwise a start that cannot advance
   * is refused, any other configuration runs the loop, and a terminating
   * configuration yields the reference chunks.
   */
  method ChunkText(text: string, chunkSize: int, overlap: int) returns (r: Result<seq<string>, ChunkError>)
    ensures r.Failure? <==> Words(text) != [] && overlap >= chunkSize
    ensures Words(text) == [] ==> r == Success([])
    ensures ValidConfig(chunkSize, overlap) ==> r == Success(Chunks(text, chunkSize, overlap))
    ensures ValidConfig(chunkSize, overlap) ==> |r.value| == CeilDiv(|Words(text)|, chunkSize - overlap)
  {
    var words := Words(text);
    if |words| == 0 {
      return Success([]);
    }
    if chunkSize - overlap <= 0 {
      return Failure(NonTerminating);
    }
    ghost var emit := KeptBody(words, chunkSize);
    var chunks := CollectChunks(words, chunkSize, chunkSize - overlap, emit);
    if chunkSize >= 1 {
      LoopIsChunks(text, chunkSize, overlap, emit);
    }
    return Success(chunks);
  }

  // ---------------------------------------------------------------------------
  // Facts about any such loop
  // ---------------------------------------------------------------------------

  /** Loops whose iterations append the same thing append the same thing. */
  lemma {:induction false} LoopExt(n: nat, s: nat, step: nat, f: nat -> seq<string>, g: nat -> seq<string>)
    requires step > 0
    requires forall t :: s <= t < n ==> f(t) == g(t)
    ensures Loop(n, s, step, f) == Loop(n, s, step, g)
    decreases n - s
  {
    if s < n {
      LoopExt(n, s + step, step, f, g);
    }
  }

  /** Every iteration appends exactly one item. */
  ghost predicate Singletons(f: nat -> seq<string>)
  {
    forall t :: |f(t)| == 1
  }

  /** Where the `k`-th iteration starts: `k` steps from the first one. */
  function WindowStart(k: nat, step: nat): nat
  {
    if k == 0 then 0 else WindowStart(k - 1, step) + step
  }

  lemma {:induction false} WindowStartIsProduct(k: nat, step: nat)
    ensures WindowStart(k, step) == k * step
  {
    if k > 0 {
      WindowStartIsProduct(k - 1, step);
      assert (k - 1) * step + step == k * step;
    }
  }

  /** A loop appending one item per start runs `ceil((n - s) / step)` times. */
  lemma {:induction false} LoopLength(n: nat, s: nat, step: nat, f: nat -> seq<string>)
    requires step > 0 && Singletons(f)
    ensures |Loop(n, s, step, f)| == (if s >= n then 0 else CeilDiv(n - s, step))
    decreases n - s
  {
    if s < n {
      assert |f(s)| == 1;
      LoopLength(n, s + step, step, f);
    }
  }

  /** Item `k` of such a loop is what the iteration `k` steps after `s` appended. */
  lemma {:induction false} LoopElement(n: nat, s: nat, step: nat, f: nat -> seq<string>, k: nat)
    requires step > 0 && Singletons(f)
    requires k < |Loop(n, s, step, f)|
    ensures s + WindowStart(k, step) < n
    ensures Loop(n, s, step, f)[k] == f(s + WindowStart(k, step))[0]
    decreases k
  {
    assert |f(s)| == 1;
    if k > 0 {
      LoopElement(n, s + step, step, f, k - 1);
    }
  }

  // ---------------------------------------------------------------------------
  // Reference definition of the chunks
  // ---------------------------------------------------------------------------

  /** Windows of at least one word whose start advances on every iteration. */
  predicate ValidConfig(chunkSize: int, overlap: int)
  {
    chunkSize >= 1 && overlap < chunkSize
  }

  /** The words of the window starting at word `s`: `words[s : s + chunkSize]`. */
  function Span(words: seq<string>, s: nat, chunkSize: nat): seq<string>
  {
    words[Min(s, |words|)..Min(s + chunkSize, |words|)]
  }

  /**
   * The chunks of a terminating configuration, stated without the loop: with
   * `step = chunkSize - overlap`, one chunk per window start `k * step` below
   * the word count (`ceil(n / step)` of them), chunk `k` being the single-space
   * join of the words of its window.
   */
  function Chunks(text: string, chunkSize: int, overlap: int): seq<string>
    requires ValidConfig(chunkSize, overlap)
  {
    var words := Words(text);
    var step := chunkSize - overlap;
    seq(CeilDiv(|words|, step), (k: int) requires 0 <= k => JoinSpace(Span(words, WindowStart(k, step), chunkSize)))
  }

  /** An unfiltered loop body: every window is appended whole. */
  function WholeWindows(words: seq<string>, chunkSize: nat): nat -> seq<string>
  {
    (start: nat) => [JoinSpace(Span(words, start, chunkSize))]
  }

  /** The words of a window are words. */
  lemma SpanWords(words: seq<string>, s: nat, chunkSize: nat)
    requires AllWords(words)
    ensures AllWords(Span(words, s, chunkSize))
  {
    var span := Span(words, s, chunkSize);
    forall i | 0 <= i < |span| ensures IsWord(span[i]) {
      assert span[i] == words[Min(s, |words|) + i];
    }
  }

  /** A window that starts inside the text is never blank, so the loop keeps it whole. */
  lemma KeptWindowWhole(words: seq<string>, s: nat, chunkSize: nat)
    requires AllWords(words) && chunkSize >= 1 && s < |words|
    ensures KeptWindow(words, s, chunkSize) == [JoinSpace(Span(words, s, chunkSize))]
  {
    var span := Span(words, s, chunkSize);
    SpanWords(words, s, chunkSize);
    JoinNotBlank(span);
    assert PySlice(words, s, s + chunkSize) == span;
  }

  /** With windows of at least one word, the blank-chunk filter never drops anything. */
  lemma KeptIsWhole(words: seq<string>, chunkSize: nat, step: nat, emit: nat -> seq<string>)
    requires AllWords(words) && chunkSize >= 1 && step > 0 && IsKeptBody(words, chunkSize, emit)
    ensures Loop(|words|, 0, step, emit) == Loop(|words|, 0, step, WholeWindows(words, chunkSize))
  {
    var whole := WholeWindows(words, chunkSize);
    forall t | 0 <= t < |words| ensures emit(t) == whole(t) {
      KeptWindowWhole(words, t, chunkSize);
    }
    LoopExt(|words|, 0, step, emit, whole);
  }

  /** The window of every chunk starts inside the text. */
  lemma {:induction false} StartInside(k: nat, n: nat, step: nat)
    requires step > 0 && k < CeilDiv(n, step)
    ensures WindowStart(k, step) < n
    decreases k
  {
    if k > 0 {
      StartInside(k - 1, n - step, step);
    }
  }

  /** Every window start inside the text belongs to a chunk. */
  lemma {:induction false} StartBelowCount(k: nat, n: nat, step: nat)
    requires step > 0 && WindowStart(k, step) < n
    ensures k < CeilDiv(n, step)
    decreases k
  {
    if k > 0 {
      StartBelowCount(k - 1, n - step, step);
    }
  }

  /** Item `k` of the unfiltered loop is reference chunk `k`. */
  lemma WholeLoopItem(words: seq<string>, chunkSize: nat, step: nat, k: nat)
    requires step > 0
    requires k < |Loop(|words|, 0, step, WholeWindows(words, chunkSize))|
    ensures Loop(|words|, 0, step, WholeWindows(words, chunkSize))[k]
      == JoinSpace(Span(words, WindowStart(k, step), chunkSize))
  {
    var whole := WholeWindows(words, chunkSize);
    assert Singletons(whole);
    LoopElement(|words|, 0, step, whole, k);
  }

  /** On a terminating configuration, the source's loop computes exactly the reference chunks. */
  lemma LoopIsChunks(text: string, chunkSize: int, overlap: int, emit: nat -> seq<string>)
    requires ValidConfig(chunkSize, overlap) && IsKeptBody(Words(text), chunkSize, emit)
    ensures Loop(|Words(text)|, 0, chunkSize - overlap, emit) == Chunks(text, chunkSize, overlap)
  {
    var words := Words(text);
    var step := chunkSize - overlap;
    var whole := WholeWindows(words, chunkSize);
    WordsAreWords(text);
    KeptIsWhole(words, chunkSize, step, emit);
    var loop := Loop(|words|, 0, step, whole);
    var chunks := Chunks(text, chunkSize, overlap);
    assert |loop| == |chunks| by {
      assert Singletons(whole);
      LoopLength(|words|, 0, step, whole);
    }
    forall k | 0 <= k < |loop| ensures loop[k] == chunks[k] {
      WholeLoopItem(words, chunkSize, step, k);
    }
  }

  // ---------------------------------------------------------------------------
  // Properties of the chunks
  // ---------------------------------------------------------------------------

  /** Chunk `k` splits back into the words of the window starting `k` steps in. */
  lemma ChunkWindow(text: string, chunkSize: int, overlap: int, k: nat)
    requires ValidConfig(chunkSize, overlap)
    requires k < |Chunks(text, chunkSize, overlap)|
    ensures var words := Words(text);
      var start := WindowStart(k, chunkSize - overlap);
      var chunk := Chunks(text, chunkSize, overlap)[k];
      && start < |words|
      && Words(chunk) == Span(words, start, chunkSize)
  {
    var words := Words(text);
    var start := WindowStart(k, chunkSize - overlap);
    StartInside(k, |words|, chunkSize - overlap);
    WordsAreWords(text);
    SpanWords(words, start, chunkSize);
    WordsOfJoin(Span(words, start, chunkSize));
  }

  /**
   * Chunk `k` covers the words from `k * step` on: re-splitting it recovers
   * exactly `words[k * step : k * step + chunkSize]`, between 1 and `chunkSize`
   * of them.
   */
  lemma ChunkWords(text: string, chunkSize: int, overlap: int, k: nat)
    requires ValidConfig(chunkSize, overlap)
    requires k < |Chunks(text, chunkSize, overlap)|
    ensures var words := Words(text);
      var start := WindowStart(k, chunkSize - overlap);
      var chunk := Chunks(text, chunkSize, overlap)[k];
      && start == k * (chunkSize - overlap) && start < |words|
      && Words(chunk) == words[start..Min(start + chunkSize, |words|)]
      && 1 <= |Words(chunk)| <= chunkSize
  {
    ChunkWindow(text, chunkSize, overlap, k);
    WindowStartIsProduct(k, chunkSize - overlap);
  }

  /** Whitespace-only text, and only it, yields no chunks. */
  lemma NoChunksIffBlank(text: string, chunkSize: int, overlap: int)
    requires ValidConfig(chunkSize, overlap)
    ensures Chunks(text, chunkSize, overlap) == [] <==> AllSpace(text)
  {
    WordsEmptyIffBlank(text);
  }

  /**
   * There is exactly one chunk iff the words fit in one step, `n <= chunkSize - overlap`
   * (not `n <= chunkSize`).
   */
  lemma SingleChunkIff(text: string, chunkSize: int, overlap: int)
    requires ValidConfig(chunkSize, overlap)
    ensures |Chunks(text, chunkSize, overlap)| == 1
      <==> 0 < |Words(text)| <= chunkSize - overlap
  {
    var n := |Words(text)|;
    var step := chunkSize - overlap;
    if n > step {
      assert CeilDiv(n, step) == 1 + CeilDiv(n - step, step);
    }
  }

  /** Two windows `step` apart share the `chunkSize - step` words after the second one's start. */
  lemma SpansOverlap(words: seq<string>, s: nat, chunkSize: nat, step: nat)
    requires 0 < step <= chunkSize && s + chunkSize <= |words|
    ensures |Span(words, s + step, chunkSize)| >= chunkSize - step
    ensures Span(words, s, chunkSize)[step..] == Span(words, s + step, chunkSize)[..chunkSize - step]
  {
    assert Span(words, s, chunkSize)[step..] == words[s + step..s + chunkSize];
    assert Span(words, s + step, chunkSize)[..chunkSize - step] == words[s + step..s + chunkSize];
  }

  /**
   * When the earlier of two consecutive chunks is full, its last `overlap`
   * words are the first `overlap` words of the next one.
   */
  lemma ConsecutiveChunksOverlap(text: string, chunkSize: int, overlap: int, k: nat)
    requires ValidConfig(chunkSize, overlap) && overlap >= 0
    requires k + 1 < |Chunks(text, chunkSize, overlap)|
    requires |Words(Chunks(text, chunkSize, overlap)[k])| == chunkSize
    ensures var chunks := Chunks(text, chunkSize, overlap);
      var a := Words(chunks[k]);
      var b := Words(chunks[k + 1]);
      overlap <= |b| && a[chunkSize - overlap..] == b[..overlap]
  {
    var words := Words(text);
    var step := chunkSize - overlap;
    ChunkWindow(text, chunkSize, overlap, k);
    ChunkWindow(text, chunkSize, overlap, k + 1);
    SpansOverlap(words, WindowStart(k, step), chunkSize, step);
  }

  /** The window whose first `step` words contain word `j`. */
  lemma {:induction false} CoveringWindow(j: nat, step: nat) returns (k: nat)
    requires step > 0
    ensures WindowStart(k, step) <= j < WindowStart(k, step) + step
    decreases j
  {
    if j < step {
      k := 0;
    } else {
      var k' := CoveringWindow(j - step, step);
      k := k' + 1;
    }
  }

  /**
   * Every word of the text lies in some chunk: word `j` is word
   * `j - k * step` of chunk `k`, for the `k` returned.
   */
  lemma ChunksCoverAllWords(text: string, chunkSize: int, overlap: int, j: nat) returns (k: nat)
    requires ValidConfig(chunkSize, overlap) && overlap >= 0
    requires j < |Words(text)|
    ensures var chunks := Chunks(text, chunkSize, overlap);
      var start := WindowStart(k, chunkSize - overlap);
      && k < |chunks|
      && start <= j < start + |Words(chunks[k])|
      && Words(chunks[k])[j - start] == Words(text)[j]
  {
    var words := Words(text);
    var step := chunkSize - overlap;
    k := CoveringWindow(j, step);
    var start := WindowStart(k, step);
    StartBelowCount(k, |words|, step);
    assert Words(Chunks(text, chunkSize, overlap)[k]) == Span(words, start, chunkSize) by {
      ChunkWindow(text, chunkSize, overlap, k);
    }
  }

  /** When the text fits in one window, the first chunk holds all of it. */
  lemma FirstChunkWhole(text: string, chunkSize: int, overlap: int)
    requires ValidConfig(chunkSize, overlap)
    requires 0 < |Words(text)| <= chunkSize
    ensures |Chunks(text, chunkSize, overlap)| >= 1
    ensures Words(Chunks(text, chunkSize, overlap)[0]) == Words(text)
  {
    ChunkWindow(text, chunkSize, overlap, 0);
  }

  /** A chunk whose window reaches past the last word holds the rest of the text. */
  lemma TailChunk(text: string, chunkSize: int, overlap: int, k: nat)
    requires ValidConfig(chunkSize, overlap)
    requires k < |Chunks(text, chunkSize, overlap)|
    requires |Words(text)| <= WindowStart(k, chunkSize - overlap) + chunkSize
    ensures WindowStart(k, chunkSize - overlap) < |Words(text)|
    ensures Words(Chunks(text, chunkSize, overlap)[k]) == Words(text)[WindowStart(k, chunkSize - overlap)..]
  {
    ChunkWindow(text, chunkSize, overlap, k);
  }

  /** When the text is longer than one step, the second chunk starts one step in. */
  lemma SecondChunkFromStep(text: string, chunkSize: int, overlap: int)
    requires ValidConfig(chunkSize, overlap)
    requires chunkSize - overlap < |Words(text)| <= chunkSize
    ensures |Chunks(text, chunkSize, overlap)| >= 2
    ensures Words(Chunks(text, chunkSize, overlap)[1]) == Words(text)[chunkSize - overlap..]
  {
    var n := |Words(text)|;
    var step := chunkSize - overlap;
    assert |Chunks(text, chunkSize, overlap)| >= 2 by {
      assert CeilDiv(n, step) == 1 + CeilDiv(n - step, step);
    }
    assert WindowStart(1, step) == step;
    TailChunk(text, chunkSize, overlap, 1);
  }

  /**
   * When `chunkSize - overlap < n <= chunkSize`, the first chunk already holds
   * the whole text and the second one repeats its tail: the text is not
   * covered by a single chunk although it fits into one window. There are
   * exactly two chunks when the text also fits into two steps, as it does
   * with the default 800 and 100.
   */
  lemma ShortTextRepeatsTail(text: string, chunkSize: int, overlap: int)
    requires ValidConfig(chunkSize, overlap)
    requires chunkSize - overlap < |Words(text)| <= chunkSize
    ensures var chunks := Chunks(text, chunkSize, overlap);
      && |chunks| >= 2
      && Words(chunks[0]) == Words(text)
      && Words(chunks[1]) == Words(text)[chunkSize - overlap..]
    ensures |Words(text)| <= 2 * (chunkSize - overlap) ==> |Chunks(text, chunkSize, overlap)| == 2
  {
    FirstChunkWhole(text, chunkSize, overlap);
    SecondChunkFromStep(text, chunkSize, overlap);
    var n := |Words(text)|;
    var step := chunkSize - overlap;
    if n <= 2 * step {
      assert CeilDiv(n, step) == 1 + CeilDiv(n - step, step) == 2;
    }
  }
}
