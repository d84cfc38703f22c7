/**
 * Sliding-window chunking of paper text (ragvix's `index/chunker.py`).
 *
 * `ChunkText` and `ChunkPapers` are the loops of the source; `Chunks` and
 * `PapersChunks` are the functional specifications they are proved against,
 * and the lemmas below state the offset, ordering, cut-off, overlap, count and
 * coverage properties of those specifications.
 */
module Chunker {
  import opened Wrappers
  import opened Seqs

  /** Default window size and overlap of `chunk_text`, in characters. */
  const DefaultChunkSize: nat := 1200
  const DefaultOverlap: nat := 120
  /** Default section label of `chunk_text`; `arxiv_id` and `title` default to "". */
  const DefaultSection: string := "main"
  /** Default of `chunk_papers_from_metadata`'s `chunk_abstracts`. */
  const DefaultChunkAbstracts: bool := true

  function Min(a: int, b: int): (m: int) { if a <= b then a else b }

  // ---------------------------------------------------------------------------
  // Python's `str.strip()` (no argument): remove leading and trailing
  // characters for which `str.isspace` holds.
  // ---------------------------------------------------------------------------

  /** The code points Python's `str.isspace` accepts. */
  predicate IsSpace(c: char)
  {
    ('\U{0009}' <= c <= '\U{000D}') || ('\U{001C}' <= c <= '\U{0020}') ||
    c == '\U{0085}' || c == '\U{00A0}' || c == '\U{1680}' ||
    ('\U{2000}' <= c <= '\U{200A}') || c == '\U{2028}' || c == '\U{2029}' ||
    c == '\U{202F}' || c == '\U{205F}' || c == '\U{3000}'
  }

  predicate AllSpace(s: string)
  {
    forall i :: 0 <= i < |s| ==> IsSpace(s[i])
  }

  /** Length of the run of whitespace in `s` that starts at position `i`. */
  function SpaceRunFrom(s: string, i: nat): (n: nat)
    requires i <= |s|
    ensures i + n <= |s|
    ensures forall k :: i <= k < i + n ==> IsSpace(s[k])
    ensures i + n < |s| ==> !IsSpace(s[i + n])
    decreases |s| - i
  {
    if i < |s| && IsSpace(s[i]) then 1 + SpaceRunFrom(s, i + 1) else 0
  }

  /** Length of the run of whitespace in `s` that ends just before position `j`. */
  function SpaceRunBefore(s: string, j: nat): (n: nat)
    requires j <= |s|
    ensures n <= j
    ensures forall k :: j - n <= k < j ==> IsSpace(s[k])
    ensures n < j ==> !IsSpace(s[j - 1 - n])
  {
    if 0 < j && IsSpace(s[j - 1]) then 1 + SpaceRunBefore(s, j - 1) else 0
  }

  /** Number of leading whitespace characters of `s`. */
  function LeadingSpace(s: string): (n: nat)
    ensures n <= |s|
    ensures forall i :: 0 <= i < n ==> IsSpace(s[i])
    ensures n < |s| ==> !IsSpace(s[n])
  {
    SpaceRunFrom(s, 0)
  }

  /** Number of trailing whitespace characters of `s`. */
  function TrailingSpace(s: string): (n: nat)
    ensures n <= |s|
    ensures forall i :: |s| - n <= i < |s| ==> IsSpace(s[i])
    ensures n < |s| ==> !IsSpace(s[|s| - 1 - n])
  {
    SpaceRunBefore(s, |s|)
  }

  /** `s.strip()`. */
  function Strip(s: string): (r: string)
  {
    var a := LeadingSpace(s);
    if a == |s| then [] else s[a..|s| - TrailingSpace(s)]
  }

  /**
   * `s.strip()` is the slice of `s` that starts at `LeadingSpace(s)`, has only
   * whitespace outside it and no whitespace at either end; it is empty exactly
   * when `s` is all whitespace.
   */
  lemma StripSpec(s: string)
    ensures var r := Strip(s);
      && LeadingSpace(s) + |r| <= |s|
      && r == s[LeadingSpace(s)..LeadingSpace(s) + |r|]
      && (forall i :: 0 <= i < LeadingSpace(s) ==> IsSpace(s[i]))
      && (forall i :: LeadingSpace(s) + |r| <= i < |s| ==> IsSpace(s[i]))
      && (r != [] ==> !IsSpace(r[0]) && !IsSpace(r[|r| - 1]))
      && (r == [] <==> AllSpace(s))
  {
    if LeadingSpace(s) < |s| {
      StripNonBlank(s);
    } else {
      StripBlank(s);
    }
  }

  /** All-whitespace text strips to the empty string. */
  lemma StripBlank(s: string)
    requires LeadingSpace(s) == |s|
    ensures Strip(s) == [] && AllSpace(s)
  {
  }

  /** Text with a non-whitespace character strips to the slice between its first and last ones. */
  lemma StripNonBlank(s: string)
    requires LeadingSpace(s) < |s|
    ensures var a, b := LeadingSpace(s), |s| - TrailingSpace(s);
      && a < b
      && Strip(s) == s[a..b]
      && !IsSpace(s[a]) && !IsSpace(s[b - 1])
      && !AllSpace(s)
  {
    var a, b := LeadingSpace(s), |s| - TrailingSpace(s);
    assert b - 1 == |s| - 1 - TrailingSpace(s);
    assert !IsSpace(s[a]);
    assert a != |s| && a < b;
    assert Strip(s) == (if a == |s| then [] else s[a..b]);
  }

  /** Text that neither starts nor ends with whitespace is left unchanged by `strip`. */
  lemma StripUnpadded(s: string)
    requires s != [] && !IsSpace(s[0]) && !IsSpace(s[|s| - 1])
    ensures Strip(s) == s
  {
  }

  // ---------------------------------------------------------------------------
  // Chunk records
  // ---------------------------------------------------------------------------

  /**
   * The `metadata` dictionary of a chunk. `authors`, `categories` and
   * `published` are `None` when the key is absent from the dictionary, as it
   * is in the chunks `chunk_text` produces.
   */
  datatype ChunkMetadata = ChunkMetadata(
    arxivId: string,
    title: string,
    section: string,
    chunkIndex: nat,
    charStart: nat,
    charEnd: nat,
    chunkSize: nat,
    authors: Option<seq<string>>,
    categories: Option<seq<string>>,
    published: Option<string>)

  datatype Chunk = Chunk(text: string, metadata: ChunkMetadata)

  /** A paper record; each field is `None` when the key is absent. */
  datatype Paper = Paper(
    arxivId: Option<string>,
    title: Option<string>,
    abstractText: Option<string>,
    authors: Option<seq<string>>,
    categories: Option<seq<string>>,
    published: Option<string>)

  /** `max(chunk_size - overlap, 1)`: the distance between window starts. */
  function Step(chunkSize: int, overlap: int): (step: nat)
    ensures step >= 1 && step >= chunkSize - overlap
    ensures step == 1 || step == chunkSize - overlap
  {
    if chunkSize - overlap >= 1 then chunkSize - overlap else 1
  }

  /** `text[i:i + chunk_size]` for `i < len(text)`, turned into a chunk record. */
  function WindowChunk(t: string, i: nat, size: nat, index: nat,
                       arxivId: string, title: string, section: string): (c: Chunk)
    requires i <= |t|
  {
    TextChunk(t[i..Min(i + size, |t|)], index, i, arxivId, title, section)
  }

  /** The record `chunk_text` appends for window `w` starting at offset `start`. */
  function TextChunk(w: string, index: nat, start: nat,
                     arxivId: string, title: string, section: string): (c: Chunk)
  {
    Chunk(w, ChunkMetadata(arxivId, title, section, index, start, start + |w|, |w|, None, None, None))
  }

  /**
   * `10 * len(w) < chunk_size`. The source compares against the float
   * product `chunk_size * 0.1`; the model uses exact integer arithmetic.
   */
  predicate TooShort(w: string, size: nat)
  {
    10 * |w| < size
  }

  /** Every window `range(i, len(t), step)` visits, with no cut-off. */
  function WindowsFrom(t: string, size: nat, step: nat, i: nat, index: nat,
                       arxivId: string, title: string, section: string): (ws: seq<Chunk>)
    requires step >= 1
    decreases |t| - i
  {
    if i >= |t| then []
    else [WindowChunk(t, i, size, index, arxivId, title, section)]
         + WindowsFrom(t, size, step, i + step, index + 1, arxivId, title, section)
  }

  /** The windows from position `i` on, up to (excluding) the first too-short one. */
  function ChunksFrom(t: string, size: nat, step: nat, i: nat, index: nat,
                      arxivId: string, title: string, section: string): (cs: seq<Chunk>)
    requires step >= 1
    decreases |t| - i
  {
    if i >= |t| then []
    else
      var c := WindowChunk(t, i, size, index, arxivId, title, section);
      if TooShort(c.text, size) then []
      else [c] + ChunksFrom(t, size, step, i + step, index + 1, arxivId, title, section)
  }

  /** The full window sequence of `chunk_text` over the stripped text. */
  function Windows(text: string, chunkSize: nat, overlap: int,
                   arxivId: string, title: string, section: string): (ws: seq<Chunk>)
  {
    WindowsFrom(Strip(text), chunkSize, Step(chunkSize, overlap), 0, 0, arxivId, title, section)
  }

  /** What `chunk_text(text, chunk_size, overlap, arxiv_id, title, section)` returns. */
  function Chunks(text: string, chunkSize: nat, overlap: int,
                  arxivId: string, title: string, section: string): (cs: seq<Chunk>)
  {
    if Strip(text) == [] then []
    else ChunksFrom(Strip(text), chunkSize, Step(chunkSize, overlap), 0, 0, arxivId, title, section)
  }

  /**
   * The loop of `chunk_text` in accumulator form: from position `i`, with
   * `acc` appended so far, each window gets index `len(acc)`.
   */
  ghost function ChunkLoop(t: string, size: nat, step: nat, i: nat, acc: seq<Chunk>,
                           arxivId: string, title: string, section: string): seq<Chunk>
    requires step >= 1
    decreases |t| - i
  {
    if i >= |t| then acc
    else
      var c := WindowChunk(t, i, size, |acc|, arxivId, title, section);
      if TooShort(c.text, size) then acc
      else ChunkLoop(t, size, step, i + step, acc + [c], arxivId, title, section)
  }

  /** The accumulating loop appends exactly the windows of `ChunksFrom`. */
  lemma {:induction false} ChunkLoopAppends(t: string, size: nat, step: nat, i: nat, acc: seq<Chunk>,
                                             arxivId: string, title: string, section: string)
    requires step >= 1
    ensures ChunkLoop(t, size, step, i, acc, arxivId, title, section)
         == acc + ChunksFrom(t, size, step, i, |acc|, arxivId, title, section)
    decreases |t| - i
  {
    if i < |t| {
      var c := WindowChunk(t, i, size, |acc|, arxivId, title, section);
      if !TooShort(c.text, size) {
        ChunkLoopAppends(t, size, step, i + step, acc + [c], arxivId, title, section);
        assert (acc + [c]) + ChunksFrom(t, size, step, i + step, |acc| + 1, arxivId, title, section)
            == acc + ([c] + ChunksFrom(t, size, step, i + step, |acc| + 1, arxivId, title, section));
      }
    }
  }

  /** `chunk_text`: the windowed slicing loop with its early `break`. */
  method ChunkText(text: string, chunkSize: nat, overlap: int,
                   arxivId: string, title: string, section: string)
    returns (chunks: seq<Chunk>)
    ensures chunks == Chunks(text, chunkSize, overlap, arxivId, title, section)
  {
    var t := Strip(text);
    if t == [] {
      BlankTextHasNoChunks(text, chunkSize, overlap, arxivId, title, section);
      return [];
    }
    chunks := [];
    var step := Step(chunkSize, overlap);
    ghost var all := ChunkLoop(t, chunkSize, step, 0, [], arxivId, title, section);
    var i := 0;
    while i < |t|
      invariant ChunkLoop(t, chunkSize, step, i, chunks, arxivId, title, section) == all
      decreases |t| - i
    {
      var w := t[i..Min(i + chunkSize, |t|)];
      if 10 * |w| < chunkSize {
        ChunkLoopStops(t, chunkSize, step, i, chunks, arxivId, title, section);
        break;
      }
      var c := TextChunk(w, |chunks|, i, arxivId, title, section);
      ChunkLoopStep(t, chunkSize, step, i, chunks, arxivId, title, section);
      chunks := chunks + [c];
      i := i + step;
    }
    ChunkLoopComputesChunks(text, chunkSize, overlap, arxivId, title, section);
  }

  /** One turn of the loop: a window that is long enough is appended. */
  lemma ChunkLoopStep(t: string, size: nat, step: nat, i: nat, acc: seq<Chunk>,
                      arxivId: string, title: string, section: string)
    requires step >= 1 && i < |t| && 10 * (Min(i + size, |t|) - i) >= size
    ensures ChunkLoop(t, size, step, i, acc, arxivId, title, section)
         == ChunkLoop(t, size, step, i + step,
                      acc + [TextChunk(t[i..Min(i + size, |t|)], |acc|, i, arxivId, title, section)],
                      arxivId, title, section)
  {
  }

  /** The `break`: a too-short window ends the loop with nothing appended. */
  lemma ChunkLoopStops(t: string, size: nat, step: nat, i: nat, acc: seq<Chunk>,
                       arxivId: string, title: string, section: string)
    requires step >= 1 && i < |t| && 10 * (Min(i + size, |t|) - i) < size
    ensures ChunkLoop(t, size, step, i, acc, arxivId, title, section) == acc
  {
  }

  /** Started on the stripped text with nothing accumulated, the loop yields `Chunks`. */
  lemma ChunkLoopComputesChunks(text: string, chunkSize: nat, overlap: int,
                                arxivId: string, title: string, section: string)
    requires Strip(text) != []
    ensures ChunkLoop(Strip(text), chunkSize, Step(chunkSize, overlap), 0, [], arxivId, title, section)
         == Chunks(text, chunkSize, overlap, arxivId, title, section)
  {
    ChunkLoopAppends(Strip(text), chunkSize, Step(chunkSize, overlap), 0, [], arxivId, title, section);
    assert [] + ChunksFrom(Strip(text), chunkSize, Step(chunkSize, overlap), 0, 0, arxivId, title, section)
        == ChunksFrom(Strip(text), chunkSize, Step(chunkSize, overlap), 0, 0, arxivId, title, section);
  }

  // ---------------------------------------------------------------------------
  // Properties of the window sequence
  // ---------------------------------------------------------------------------

  /** Multiplying by a positive factor keeps the order. */
  lemma MulMono(x: nat, y: nat, b: nat)
    requires x <= y
    ensures x * b <= y * b
  {
    assert y * b == x * b + (y - x) * b;
  }

  /** `a * b <= c` with `b > 0` gives `a <= c / b`. */
  lemma MulLeDiv(a: nat, b: nat, c: nat)
    requires b > 0 && a * b <= c
    ensures a <= c / b
  {
    var q, r := c / b, c % b;
    assert c == q * b + r && 0 <= r < b;
    if a >= q + 1 {
      assert (q + 1) * b == q * b + b;
      MulMono(q + 1, a, b);
    }
  }

  /** Multiplying by a positive step keeps a strict order. */
  lemma MulStrict(j: nat, k: nat, step: nat)
    requires j < k && step >= 1
    ensures j * step < k * step
  {
    assert k * step == j * step + (k - j) * step;
  }

  /**
   * `c` is the window of `t` that starts at `c`'s recorded offset: the clamped
   * slice `t[start:start + size]`, with end offset and size field recording its
   * length, the given labels and no author/category/date fields.
   */
  predicate IsWindowOf(c: Chunk, t: string, size: nat, arxivId: string, title: string, section: string)
  {
    var m := c.metadata;
    && m.charStart < |t|
    && m.charEnd == Min(m.charStart + size, |t|)
    && c.text == t[m.charStart..m.charEnd]
    && m.chunkSize == |c.text| == m.charEnd - m.charStart
    && m.arxivId == arxivId && m.title == title && m.section == section
    && m.authors.None? && m.categories.None? && m.published.None?
  }

  /**
   * The k-th chunk from position `i` is a window of `t`, carries index
   * `index + k`, is not too short, and the next chunk starts `step` later.
   */
  lemma {:induction false} ChunksFromAt(t: string, size: nat, step: nat, i: nat, index: nat,
                                         arxivId: string, title: string, section: string, k: nat)
    requires step >= 1
    requires k < |ChunksFrom(t, size, step, i, index, arxivId, title, section)|
    ensures var cs := ChunksFrom(t, size, step, i, index, arxivId, title, section);
      && IsWindowOf(cs[k], t, size, arxivId, title, section)
      && cs[k].metadata.chunkIndex == index + k
      && i <= cs[k].metadata.charStart
      && !TooShort(cs[k].text, size)
      && (k + 1 < |cs| ==> cs[k + 1].metadata.charStart == cs[k].metadata.charStart + step)
    decreases k
  {
    if k > 0 {
      ChunksFromAt(t, size, step, i + step, index + 1, arxivId, title, section, k - 1);
    } else {
      var cs := ChunksFrom(t, size, step, i, index, arxivId, title, section);
      if 1 < |cs| {
        assert cs[1] == ChunksFrom(t, size, step, i + step, index + 1, arxivId, title, section)[0];
      }
    }
  }

  /** The k-th chunk from position `i` starts at `i + k * step`. */
  lemma {:induction false} ChunksFromStart(t: string, size: nat, step: nat, i: nat, index: nat,
                                            arxivId: string, title: string, section: string, k: nat)
    requires step >= 1
    requires k < |ChunksFrom(t, size, step, i, index, arxivId, title, section)|
    ensures ChunksFrom(t, size, step, i, index, arxivId, title, section)[k].metadata.charStart == i + k * step
    decreases k
  {
    if k > 0 {
      ChunksFromStart(t, size, step, i + step, index + 1, arxivId, title, section, k - 1);
      assert i + step + (k - 1) * step == i + k * step;
    }
  }

  /** The chunks are a prefix of the windows, cut at the first too-short window. */
  lemma {:induction false} ChunksFromPrefix(t: string, size: nat, step: nat, i: nat, index: nat,
                                             arxivId: string, title: string, section: string)
    requires step >= 1
    ensures var cs := ChunksFrom(t, size, step, i, index, arxivId, title, section);
      var ws := WindowsFrom(t, size, step, i, index, arxivId, title, section);
      && |cs| <= |ws|
      && cs == ws[..|cs|]
      && (|cs| < |ws| ==> TooShort(ws[|cs|].text, size))
    decreases |t| - i
  {
    if i < |t| {
      ChunksFromPrefix(t, size, step, i + step, index + 1, arxivId, title, section);
    }
  }

  /** The last window starts within `step` of the end, so with `step <= size` it reaches the end. */
  lemma {:induction false} LastWindowReachesEnd(t: string, size: nat, step: nat, i: nat, index: nat,
                                                 arxivId: string, title: string, section: string)
    requires 1 <= step <= size
    ensures var ws := WindowsFrom(t, size, step, i, index, arxivId, title, section);
      ws != [] ==> ws[|ws| - 1].metadata.charEnd == |t|
    decreases |t| - i
  {
    if i < |t| {
      LastWindowReachesEnd(t, size, step, i + step, index + 1, arxivId, title, section);
    }
  }

  /** Two adjacent windows `step <= size` apart: the first's tail is a prefix of the second. */
  lemma AdjacentWindowsOverlap(c: Chunk, d: Chunk, t: string, size: nat, step: nat,
                               arxivId: string, title: string, section: string)
    requires 1 <= step <= size
    requires IsWindowOf(c, t, size, arxivId, title, section)
    requires IsWindowOf(d, t, size, arxivId, title, section)
    requires d.metadata.charStart == c.metadata.charStart + step
    ensures step <= |c.text|
    ensures d.metadata.charStart <= c.metadata.charEnd
    ensures c.text[step..] <= d.text
  {
    var s, e := c.metadata.charStart, c.metadata.charEnd;
    var s', e' := d.metadata.charStart, d.metadata.charEnd;
    assert e <= e';
    assert c.text[step..] == t[s'..e];
    assert t[s'..e] == t[s'..e'][..e - s'];
  }

  /** Consecutive chunks of `t` start `step` apart and, with `step <= size`, overlap. */
  lemma ChunksFromOverlap(t: string, size: nat, step: nat,
                          arxivId: string, title: string, section: string, k: nat)
    requires 1 <= step <= size
    requires k + 1 < |ChunksFrom(t, size, step, 0, 0, arxivId, title, section)|
    ensures var cs := ChunksFrom(t, size, step, 0, 0, arxivId, title, section);
      && step <= |cs[k].text|
      && cs[k + 1].metadata.charStart == cs[k].metadata.charStart + step
      && cs[k + 1].metadata.charStart <= cs[k].metadata.charEnd
      && cs[k].text[step..] <= cs[k + 1].text
  {
    var cs := ChunksFrom(t, size, step, 0, 0, arxivId, title, section);
    ChunksFromAt(t, size, step, 0, 0, arxivId, title, section, k);
    ChunksFromAt(t, size, step, 0, 0, arxivId, title, section, k + 1);
    AdjacentWindowsOverlap(cs[k], cs[k + 1], t, size, step, arxivId, title, section);
  }

  /** At most `ceil(len(t) / step)` chunks. */
  lemma ChunksFromCount(t: string, size: nat, step: nat, arxivId: string, title: string, section: string)
    requires step >= 1
    ensures |ChunksFrom(t, size, step, 0, 0, arxivId, title, section)| <= (|t| + step - 1) / step
  {
    var n := |ChunksFrom(t, size, step, 0, 0, arxivId, title, section)|;
    if n > 0 {
      ChunksFromAt(t, size, step, 0, 0, arxivId, title, section, n - 1);
      ChunksFromStart(t, size, step, 0, 0, arxivId, title, section, n - 1);
      CountFromLastStart(n, step, |t|);
    }
  }

  /** If the last of `n` starts, `(n - 1) * step`, lies below `len`, then `n <= ceil(len / step)`. */
  lemma CountFromLastStart(n: nat, step: nat, len: nat)
    requires n >= 1 && step >= 1 && (n - 1) * step < len
    ensures n <= (len + step - 1) / step
  {
    assert n * step == (n - 1) * step + step;
    MulLeDiv(n, step, len + step - 1);
  }

  /** A chain of spans without gaps covers every position up to its last end. */
  lemma {:induction false} CoveredByChain(cs: seq<Chunk>, p: int) returns (k: nat)
    requires cs != []
    requires forall j :: 0 <= j < |cs| - 1 ==> cs[j + 1].metadata.charStart <= cs[j].metadata.charEnd
    requires cs[0].metadata.charStart <= p < cs[|cs| - 1].metadata.charEnd
    ensures k < |cs| && cs[k].metadata.charStart <= p < cs[k].metadata.charEnd
    decreases |cs|
  {
    if p < cs[0].metadata.charEnd {
      k := 0;
    } else {
      var k' := CoveredByChain(cs[1..], p);
      k := k' + 1;
    }
  }

  /** Coverage of `t` by its chunks, given `1 <= step <= size`. */
  lemma ChunksFromCover(t: string, size: nat, step: nat,
                        arxivId: string, title: string, section: string, p: int)
    requires 1 <= step <= size
    requires var cs := ChunksFrom(t, size, step, 0, 0, arxivId, title, section);
      cs != [] && 0 <= p < cs[|cs| - 1].metadata.charEnd
    ensures var cs := ChunksFrom(t, size, step, 0, 0, arxivId, title, section);
      exists k :: 0 <= k < |cs| && cs[k].metadata.charStart <= p < cs[k].metadata.charEnd
  {
    var cs := ChunksFrom(t, size, step, 0, 0, arxivId, title, section);
    forall j | 0 <= j < |cs| - 1
      ensures cs[j + 1].metadata.charStart <= cs[j].metadata.charEnd
    {
      ChunksFromOverlap(t, size, step, arxivId, title, section, j);
    }
    ChunksFromStart(t, size, step, 0, 0, arxivId, title, section, 0);
    var k := CoveredByChain(cs, p);
  }

  /** With nothing dropped and `1 <= step <= size`, the last chunk ends at the end of `t`. */
  lemma ChunksFromReachEnd(t: string, size: nat, step: nat,
                           arxivId: string, title: string, section: string)
    requires 1 <= step <= size
    ensures var cs := ChunksFrom(t, size, step, 0, 0, arxivId, title, section);
      var ws := WindowsFrom(t, size, step, 0, 0, arxivId, title, section);
      cs != [] && |cs| == |ws| ==> cs[|cs| - 1].metadata.charEnd == |t|
  {
    ChunksFromPrefix(t, size, step, 0, 0, arxivId, title, section);
    LastWindowReachesEnd(t, size, step, 0, 0, arxivId, title, section);
  }

  /** `Chunks` is `ChunksFrom` over the stripped text, also when that is empty. */
  lemma ChunksOfStripped(text: string, chunkSize: nat, overlap: int,
                         arxivId: string, title: string, section: string)
    ensures Chunks(text, chunkSize, overlap, arxivId, title, section)
         == ChunksFrom(Strip(text), chunkSize, Step(chunkSize, overlap), 0, 0, arxivId, title, section)
  {
  }

  /** Empty or all-whitespace text yields no chunks (the early `return []`). */
  lemma BlankTextHasNoChunks(text: string, chunkSize: nat, overlap: int,
                             arxivId: string, title: string, section: string)
    requires AllSpace(text)
    ensures Chunks(text, chunkSize, overlap, arxivId, title, section) == []
  {
  }

  /**
   * `chunk_text` returns nothing exactly when the stripped text is empty or its
   * first window, of length `min(chunk_size, len(stripped))`, is too short.
   */
  lemma ChunksEmptyIff(text: string, chunkSize: nat, overlap: int,
                       arxivId: string, title: string, section: string)
    ensures Chunks(text, chunkSize, overlap, arxivId, title, section) == []
        <==> AllSpace(text) || 10 * Min(chunkSize, |Strip(text)|) < chunkSize
  {
    var t := Strip(text);
    if t != [] {
      assert |t[0..Min(chunkSize, |t|)]| == Min(chunkSize, |t|);
    }
  }

  /**
   * Every chunk of `chunk_text`: index `k`, start `k * step` inside the
   * stripped text, text equal to the clamped slice `stripped[start:end]`,
   * `end - start == chunk_size field == len(text) <= chunk_size`, not too
   * short, with the given labels and no author/category/date fields.
   */
  lemma ChunkFields(text: string, chunkSize: nat, overlap: int,
                    arxivId: string, title: string, section: string, k: nat)
    requires k < |Chunks(text, chunkSize, overlap, arxivId, title, section)|
    ensures var t := Strip(text);
      var c := Chunks(text, chunkSize, overlap, arxivId, title, section)[k];
      && c.metadata.chunkIndex == k
      && c.metadata.charStart == k * Step(chunkSize, overlap)
      && c.metadata.charStart < |t|
      && c.metadata.charEnd == Min(c.metadata.charStart + chunkSize, |t|)
      && c.text == t[c.metadata.charStart..c.metadata.charEnd]
      && c.metadata.chunkSize == |c.text| == c.metadata.charEnd - c.metadata.charStart
      && |c.text| <= chunkSize
      && 10 * |c.text| >= chunkSize
      && c.metadata.arxivId == arxivId && c.metadata.title == title
      && c.metadata.section == section
      && c.metadata.authors.None? && c.metadata.categories.None? && c.metadata.published.None?
  {
    ChunksOfStripped(text, chunkSize, overlap, arxivId, title, section);
    var t, step := Strip(text), Step(chunkSize, overlap);
    ChunksFromAt(t, chunkSize, step, 0, 0, arxivId, title, section, k);
    ChunksFromStart(t, chunkSize, step, 0, 0, arxivId, title, section, k);
  }

  /** Each chunk's text is also the slice of the unstripped input shifted by `LeadingSpace`. */
  lemma ChunkInOriginal(text: string, chunkSize: nat, overlap: int,
                        arxivId: string, title: string, section: string, k: nat)
    requires k < |Chunks(text, chunkSize, overlap, arxivId, title, section)|
    ensures var c := Chunks(text, chunkSize, overlap, arxivId, title, section)[k];
      && c.metadata.charStart <= c.metadata.charEnd
      && LeadingSpace(text) + c.metadata.charEnd <= |text|
      && c.text == text[LeadingSpace(text) + c.metadata.charStart..LeadingSpace(text) + c.metadata.charEnd]
  {
    ChunksOfStripped(text, chunkSize, overlap, arxivId, title, section);
    var t, step := Strip(text), Step(chunkSize, overlap);
    var a := LeadingSpace(text);
    StripSpec(text);
    assert a + |t| <= |text| && t == text[a..a + |t|];
    var c := ChunksFrom(t, chunkSize, step, 0, 0, arxivId, title, section)[k];
    assert c == Chunks(text, chunkSize, overlap, arxivId, title, section)[k];
    ChunksFromAt(t, chunkSize, step, 0, 0, arxivId, title, section, k);
    WindowInOriginal(c, text, a, t, chunkSize, arxivId, title, section);
  }

  lemma WindowInOriginal(c: Chunk, text: string, a: nat, t: string, size: nat,
                         arxivId: string, title: string, section: string)
    requires a + |t| <= |text| && t == text[a..a + |t|]
    requires IsWindowOf(c, t, size, arxivId, title, section)
    ensures c.metadata.charStart <= c.metadata.charEnd && a + c.metadata.charEnd <= |text|
    ensures c.text == text[a + c.metadata.charStart..a + c.metadata.charEnd]
  {
    SliceOfSlice(text, a, a + |t|, c.metadata.charStart, c.metadata.charEnd);
  }

  /** A slice of a slice is a slice. */
  lemma SliceOfSlice(s: string, a: nat, b: nat, x: nat, y: nat)
    requires a <= b <= |s| && x <= y <= b - a
    ensures s[a..b][x..y] == s[a + x..a + y]
  {
    assert forall i :: 0 <= i < y - x ==> s[a..b][x..y][i] == s[a + x + i];
  }

  /** Chunk starts are strictly increasing. */
  lemma ChunkStartsIncrease(text: string, chunkSize: nat, overlap: int,
                            arxivId: string, title: string, section: string, j: nat, k: nat)
    requires j < k < |Chunks(text, chunkSize, overlap, arxivId, title, section)|
    ensures var cs := Chunks(text, chunkSize, overlap, arxivId, title, section);
      cs[j].metadata.charStart < cs[k].metadata.charStart
  {
    ChunksOfStripped(text, chunkSize, overlap, arxivId, title, section);
    var t, step := Strip(text), Step(chunkSize, overlap);
    ChunksFromStart(t, chunkSize, step, 0, 0, arxivId, title, section, j);
    ChunksFromStart(t, chunkSize, step, 0, 0, arxivId, title, section, k);
    MulStrict(j, k, step);
  }

  /**
   * The output is a prefix of the full window sequence; when it is a proper
   * prefix, the first window left out is too short (the `break`).
   */
  lemma ChunksArePrefixOfWindows(text: string, chunkSize: nat, overlap: int,
                                 arxivId: string, title: string, section: string)
    ensures var cs := Chunks(text, chunkSize, overlap, arxivId, title, section);
      var ws := Windows(text, chunkSize, overlap, arxivId, title, section);
      && |cs| <= |ws|
      && cs == ws[..|cs|]
      && (|cs| < |ws| ==> 10 * |ws[|cs|].text| < chunkSize)
  {
    ChunksOfStripped(text, chunkSize, overlap, arxivId, title, section);
    ChunksFromPrefix(Strip(text), chunkSize, Step(chunkSize, overlap), 0, 0, arxivId, title, section);
  }

  /**
   * With a positive window and a non-negative overlap, chunk `k`'s text from
   * offset `step` on is a prefix of chunk `k + 1`'s text, so consecutive
   * chunks share `len(text) - step` characters and leave no gap.
   */
  lemma ConsecutiveChunksOverlap(text: string, chunkSize: nat, overlap: int,
                                 arxivId: string, title: string, section: string, k: nat)
    requires chunkSize >= 1 && overlap >= 0
    requires k + 1 < |Chunks(text, chunkSize, overlap, arxivId, title, section)|
    ensures var cs := Chunks(text, chunkSize, overlap, arxivId, title, section);
      var step := Step(chunkSize, overlap);
      && step <= |cs[k].text|
      && cs[k + 1].metadata.charStart == cs[k].metadata.charStart + step
      && cs[k + 1].metadata.charStart <= cs[k].metadata.charEnd
      && cs[k].text[step..] <= cs[k + 1].text
  {
    ChunksOfStripped(text, chunkSize, overlap, arxivId, title, section);
    ChunksFromOverlap(Strip(text), chunkSize, Step(chunkSize, overlap), arxivId, title, section, k);
  }

  /**
   * At most `ceil(len(stripped) / step)` chunks, and every chunk starts
   * inside the stripped text.
   */
  lemma ChunkCountBound(text: string, chunkSize: nat, overlap: int,
                        arxivId: string, title: string, section: string)
    ensures var cs := Chunks(text, chunkSize, overlap, arxivId, title, section);
      var step := Step(chunkSize, overlap);
      && |cs| <= (|Strip(text)| + step - 1) / step
      && forall k :: 0 <= k < |cs| ==> cs[k].metadata.charStart < |Strip(text)|
  {
    ChunksOfStripped(text, chunkSize, overlap, arxivId, title, section);
    var t, step := Strip(text), Step(chunkSize, overlap);
    var cs := ChunksFrom(t, chunkSize, step, 0, 0, arxivId, title, section);
    ChunksFromCount(t, chunkSize, step, arxivId, title, section);
    forall k | 0 <= k < |cs| ensures cs[k].metadata.charStart < |t| {
      ChunksFromAt(t, chunkSize, step, 0, 0, arxivId, title, section, k);
    }
  }

  /**
   * With a positive window and a non-negative overlap the chunks cover the
   * stripped text from 0 to the end of the last chunk without gaps, and the
   * last chunk reaches the end of the stripped text unless a too-short window
   * was dropped.
   */
  lemma ChunksCover(text: string, chunkSize: nat, overlap: int,
                    arxivId: string, title: string, section: string, p: int)
    requires chunkSize >= 1 && overlap >= 0
    requires var cs := Chunks(text, chunkSize, overlap, arxivId, title, section);
      cs != [] && 0 <= p < cs[|cs| - 1].metadata.charEnd
    ensures var cs := Chunks(text, chunkSize, overlap, arxivId, title, section);
      exists k :: 0 <= k < |cs| && cs[k].metadata.charStart <= p < cs[k].metadata.charEnd
    ensures var cs := Chunks(text, chunkSize, overlap, arxivId, title, section);
      var ws := Windows(text, chunkSize, overlap, arxivId, title, section);
      |cs| == |ws| ==> cs[|cs| - 1].metadata.charEnd == |Strip(text)|
  {
    ChunksOfStripped(text, chunkSize, overlap, arxivId, title, section);
    ChunksFromCover(Strip(text), chunkSize, Step(chunkSize, overlap), arxivId, title, section, p);
    ChunksFromReachEnd(Strip(text), chunkSize, Step(chunkSize, overlap), arxivId, title, section);
  }

  // ---------------------------------------------------------------------------
  // chunk_papers_from_metadata
  // ---------------------------------------------------------------------------

  /** `not paper.get("abstract")`: the abstract is missing or empty. */
  predicate NoAbstract(p: Paper)
  {
    p.abstractText.None? || p.abstractText.value == []
  }

  /** The single chunk holding a paper's whole, unstripped abstract. */
  function WholeAbstractChunk(p: Paper): (c: Chunk)
    requires p.abstractText.Some?
  {
    var a := p.abstractText.value;
    Chunk(a, ChunkMetadata(p.arxivId.GetOr(""), p.title.GetOr(""), "abstract", 0, 0, |a|, |a|,
                           Some(p.authors.GetOr([])), Some(p.categories.GetOr([])),
                           Some(p.published.GetOr(""))))
  }

  /** What one iteration of the paper loop contributes. */
  function PaperChunks(p: Paper, chunkAbstracts: bool, chunkSize: nat, overlap: int): (cs: seq<Chunk>)
  {
    if NoAbstract(p) then []
    else if chunkAbstracts && |p.abstractText.value| > chunkSize then
      Chunks(p.abstractText.value, chunkSize, overlap, p.arxivId.GetOr(""), p.title.GetOr(""), "abstract")
    else [WholeAbstractChunk(p)]
  }

  /** The in-order concatenation of the contributions of `papers`. */
  function PapersChunks(papers: seq<Paper>, chunkAbstracts: bool, chunkSize: nat, overlap: int): (cs: seq<Chunk>)
  {
    FlatMap(papers, p => PaperChunks(p, chunkAbstracts, chunkSize, overlap))
  }

  /** `chunk_papers_from_metadata`: the loop over papers that extends `all_chunks`. */
  method ChunkPapers(papers: seq<Paper>, chunkAbstracts: bool, chunkSize: nat, overlap: int)
    returns (allChunks: seq<Chunk>)
    ensures allChunks == PapersChunks(papers, chunkAbstracts, chunkSize, overlap)
  {
    allChunks := [];
    for i := 0 to |papers|
      invariant allChunks == PapersChunks(papers[..i], chunkAbstracts, chunkSize, overlap)
    {
      assert papers[..i + 1][..i] == papers[..i];
      var paper := papers[i];
      if paper.abstractText.None? || paper.abstractText.value == [] {
        continue;
      }
      var abs := paper.abstractText.value;
      if chunkAbstracts && |abs| > chunkSize {
        var chunks := ChunkText(abs, chunkSize, overlap, paper.arxivId.GetOr(""),
                                paper.title.GetOr(""), "abstract");
        allChunks := allChunks + chunks;
      } else {
        var c := Chunk(abs, ChunkMetadata(paper.arxivId.GetOr(""), paper.title.GetOr(""), "abstract",
                                          0, 0, |abs|, |abs|, Some(paper.authors.GetOr([])),
                                          Some(paper.categories.GetOr([])),
                                          Some(paper.published.GetOr(""))));
        allChunks := allChunks + [c];
      }
    }
    assert papers[..|papers|] == papers;
  }

  /** Concatenation: the chunks of `a + b` are those of `a` followed by those of `b`. */
  lemma PapersChunksAppend(a: seq<Paper>, b: seq<Paper>,
                                               chunkAbstracts: bool, chunkSize: nat, overlap: int)
    ensures PapersChunks(a + b, chunkAbstracts, chunkSize, overlap)
         == PapersChunks(a, chunkAbstracts, chunkSize, overlap)
            + PapersChunks(b, chunkAbstracts, chunkSize, overlap)
  {
    FlatMapAppend(a, b, p => PaperChunks(p, chunkAbstracts, chunkSize, overlap));
  }

  /** In particular the first paper's chunks come first. */
  lemma PapersChunksCons(p: Paper, rest: seq<Paper>, chunkAbstracts: bool, chunkSize: nat, overlap: int)
    ensures PapersChunks([p] + rest, chunkAbstracts, chunkSize, overlap)
         == PaperChunks(p, chunkAbstracts, chunkSize, overlap)
            + PapersChunks(rest, chunkAbstracts, chunkSize, overlap)
  {
    PapersChunksAppend([p], rest, chunkAbstracts, chunkSize, overlap);
    var f := q => PaperChunks(q, chunkAbstracts, chunkSize, overlap);
    assert [p][..0] == [];
    assert FlatMap([p], f) == FlatMap([], f) + f(p);
  }

  /** A paper whose abstract is missing or empty contributes nothing. */
  lemma NoAbstractNoChunks(p: Paper, chunkAbstracts: bool, chunkSize: nat, overlap: int)
    requires NoAbstract(p)
    ensures PaperChunks(p, chunkAbstracts, chunkSize, overlap) == []
  {
  }

  /**
   * A paper with a non-empty abstract no longer than `chunk_size`, or any
   * such paper when `chunk_abstracts` is off, contributes exactly one chunk:
   * its unstripped abstract at index 0 spanning `[0, len(abstract))`, with
   * section "abstract", the paper's labels (defaulting to "") and its author,
   * category and date fields (defaulting to empty).
   */
  lemma WholeAbstractContribution(p: Paper, chunkAbstracts: bool, chunkSize: nat, overlap: int)
    requires !NoAbstract(p)
    requires !chunkAbstracts || |p.abstractText.value| <= chunkSize
    ensures var cs := PaperChunks(p, chunkAbstracts, chunkSize, overlap);
      var a := p.abstractText.value;
      && |cs| == 1
      && cs[0].text == a
      && cs[0].metadata.chunkIndex == 0
      && cs[0].metadata.charStart == 0
      && cs[0].metadata.charEnd == cs[0].metadata.chunkSize == |a|
      && cs[0].metadata.section == "abstract"
      && cs[0].metadata.arxivId == p.arxivId.GetOr("")
      && cs[0].metadata.title == p.title.GetOr("")
      && cs[0].metadata.authors == Some(p.authors.GetOr([]))
      && cs[0].metadata.categories == Some(p.categories.GetOr([]))
      && cs[0].metadata.published == Some(p.published.GetOr(""))
  {
  }

  /**
   * A long abstract with `chunk_abstracts` set contributes exactly the
   * windows `chunk_text` cuts from it under section "abstract"; each is a
   * slice of the original abstract shifted past its leading whitespace.
   */
  lemma LongAbstractContribution(p: Paper, chunkSize: nat, overlap: int, k: nat)
    requires !NoAbstract(p) && |p.abstractText.value| > chunkSize
    ensures var a := p.abstractText.value;
      PaperChunks(p, true, chunkSize, overlap)
      == Chunks(a, chunkSize, overlap, p.arxivId.GetOr(""), p.title.GetOr(""), "abstract")
    ensures var a := p.abstractText.value;
      var cs := PaperChunks(p, true, chunkSize, overlap);
      k < |cs| ==>
        && cs[k].metadata.charStart <= cs[k].metadata.charEnd
        && cs[k].metadata.section == "abstract"
        && cs[k].metadata.chunkIndex == k
        && LeadingSpace(a) + cs[k].metadata.charEnd <= |a|
        && cs[k].text == a[LeadingSpace(a) + cs[k].metadata.charStart..LeadingSpace(a) + cs[k].metadata.charEnd]
  {
    var a := p.abstractText.value;
    var cs := PaperChunks(p, true, chunkSize, overlap);
    if k < |cs| {
      ChunkFields(a, chunkSize, overlap, p.arxivId.GetOr(""), p.title.GetOr(""), "abstract", k);
      ChunkInOriginal(a, chunkSize, overlap, p.arxivId.GetOr(""), p.title.GetOr(""), "abstract", k);
    }
  }

  /**
   * The length test uses the unstripped abstract: a long abstract whose
   * stripped text is shorter than a tenth of `chunk_size` (for instance a
   * short sentence padded with whitespace) contributes no chunk at all.
   */
  lemma PaddedAbstractDropped(p: Paper, chunkSize: nat, overlap: int)
    requires !NoAbstract(p) && |p.abstractText.value| > chunkSize
    requires 10 * |Strip(p.abstractText.value)| < chunkSize
    ensures PaperChunks(p, true, chunkSize, overlap) == []
  {
    ChunksEmptyIff(p.abstractText.value, chunkSize, overlap, p.arxivId.GetOr(""), p.title.GetOr(""), "abstract");
  }

  /** Number of papers with a non-empty abstract. */
  function CountWithAbstract(papers: seq<Paper>): (n: nat)
  {
    if papers == [] then 0
    else CountWithAbstract(papers[..|papers| - 1]) + (if NoAbstract(papers[|papers| - 1]) then 0 else 1)
  }

  /** With `chunk_abstracts` off, every paper with an abstract yields exactly one chunk. */
  lemma {:induction false} WholeAbstractCount(papers: seq<Paper>, chunkSize: nat, overlap: int)
    ensures |PapersChunks(papers, false, chunkSize, overlap)| == CountWithAbstract(papers)
    decreases |papers|
  {
    if papers != [] {
      WholeAbstractCount(papers[..|papers| - 1], chunkSize, overlap);
    }
  }

  /** `chunk_text("abcdef", 3, 1)` steps by 2 and keeps the short tail window "ef". */
  lemma SmallExample()
    ensures var cs := Chunks("abcdef", 3, 1, "", "", "main");
      && |cs| == 3
      && cs[0].text == "abc" && cs[1].text == "cde" && cs[2].text == "ef"
      && cs[2].metadata.charStart == 4 && cs[2].metadata.charEnd == 6
  {
    var t := "abcdef";
    assert t[0..3] == "abc" && t[2..5] == "cde" && t[4..6] == "ef";
    StripUnpadded(t);
    ChunksOfStripped(t, 3, 1, "", "", "main");
    assert Step(3, 1) == 2;
    assert ChunksFrom(t, 3, 2, 6, 3, "", "", "main") == [];
    assert ChunksFrom(t, 3, 2, 4, 2, "", "", "main") == [TextChunk("ef", 2, 4, "", "", "main")];
  }

  /** A document shorter than a tenth of `chunk_size` yields no chunk at all. */
  lemma ShortDocumentDropped()
    ensures Chunks("A short note.", DefaultChunkSize, DefaultOverlap, "", "", DefaultSection) == []
  {
    ChunksEmptyIff("A short note.", DefaultChunkSize, DefaultOverlap, "", "", DefaultSection);
  }
}
