/**
 * What the chunker guarantees about the tuples it yields: no text is lost or
 * repeated beyond the overlap, every chunk but the last is cut near
 * `chunkSize`, each chunk starts with the last `overlap` characters of the one
 * before, and the context excerpts are the bounded pieces of the neighbouring
 * pages. Also the failure of the final yield as written.
 */
module ChunkProperties {
  import opened Wrappers
  import opened PyText
  import opened Chunking

  /** The first chunk, then each later chunk without its first `overlap` characters. */
  function Reassemble(chunks: seq<Chunk>, overlap: nat): string
  {
    if |chunks| == 0 then ""
    else if |chunks| == 1 then chunks[0].text
    else Reassemble(chunks[..|chunks| - 1], overlap) + Drop(chunks[|chunks| - 1].text, overlap)
  }

  /** The document text a generator state accounts for: its chunks, then the buffer past the overlap. */
  function Covered(st: State, overlap: nat): string
  {
    if st.emitted == [] then st.buffer else Reassemble(st.emitted, overlap) + Drop(st.buffer, overlap)
  }

  /** `next` begins with the last `overlap` characters of `prev`. */
  ghost predicate Seeded(prev: string, next: string, overlap: nat)
  {
    overlap <= |prev| && overlap <= |next| && next[..overlap] == prev[|prev| - overlap..]
  }

  /** The deque's content once the first `i` pages have been appended to it. */
  function WindowAt(pages: seq<string>, i: nat, n: nat): seq<string>
    requires i <= |pages|
  {
    pages[i - MinNat(i, n)..i]
  }

  /** What every chunk cut inside the loop satisfies. */
  ghost predicate IsCut(c: Chunk, pages: seq<string>, cfg: Config)
  {
    && cfg.chunkSize - 99 <= |c.text| <= cfg.chunkSize + 100
    && (|c.text| == cfg.chunkSize || (|c.text| > 0 && c.text[|c.text| - 1] == '.'))
    && c.page < |pages|
    && c.before == ContextBefore(WindowAt(pages, c.page + 1, cfg.contextWindow), cfg.overlap)
    && c.after == ContextAfter(pages, c.page, cfg.overlap)
  }

  /**
   * The text and deque part of the invariant after the first `i` pages were
   * appended: the state accounts for exactly those pages, the deque holds the
   * last `contextWindow` of them, and the buffer starts with the end of the
   * last chunk.
   */
  ghost predicate Accounts(st: State, pages: seq<string>, i: nat, cfg: Config)
    requires i <= |pages|
  {
    && Covered(st, cfg.overlap) == Concat(pages[..i])
    && st.window == WindowAt(pages, i, cfg.contextWindow)
    && (st.emitted != [] ==> |Concat(pages[..i])| >= cfg.chunkSize)
    && (st.buffer != "" ==> i > 0)
    && (st.emitted != [] ==> Seeded(st.emitted[|st.emitted| - 1].text, st.buffer, cfg.overlap))
  }

  /** Each chunk begins with the last `overlap` characters of the one before. */
  ghost predicate Chained(cs: seq<Chunk>, overlap: nat)
  {
    forall k :: 0 < k < |cs| ==> Seeded(cs[k - 1].text, cs[k].text, overlap)
  }

  /** Every chunk is a cut of one of the first `i` pages, in page order. */
  ghost predicate CutsOk(cs: seq<Chunk>, pages: seq<string>, i: nat, cfg: Config)
  {
    && (forall k :: 0 <= k < |cs| ==> IsCut(cs[k], pages, cfg) && cs[k].page < i)
    && (forall k :: 0 < k < |cs| ==> cs[k - 1].page <= cs[k].page)
  }

  /** The invariant of the generator's state after the first `i` pages were appended. */
  ghost predicate Good(st: State, pages: seq<string>, i: nat, cfg: Config)
    requires i <= |pages|
  {
    Accounts(st, pages, i, cfg) && Chained(st.emitted, cfg.overlap) && CutsOk(st.emitted, pages, i, cfg)
  }

  /** Sequence algebra: the text of one more page is appended to the concatenation. */
  lemma ConcatStep(pages: seq<string>, i: nat)
    requires i < |pages|
    ensures Concat(pages[..i + 1]) == Concat(pages[..i]) + pages[i]
  {
    assert pages[..i + 1][..i] == pages[..i];
  }

  lemma WindowStep(pages: seq<string>, i: nat, n: nat)
    requires i < |pages|
    ensures Push(WindowAt(pages, i, n), pages[i], n) == WindowAt(pages, i + 1, n)
  {
    var w := WindowAt(pages, i, n);
    assert w + [pages[i]] == pages[i - MinNat(i, n)..i + 1];
  }

  lemma ReassembleAppend(e: seq<Chunk>, c: Chunk, overlap: nat)
    requires e != []
    ensures Reassemble(e + [c], overlap) == Reassemble(e, overlap) + Drop(c.text, overlap)
  {
    assert (e + [c])[..|e|] == e;
  }

  lemma AppendAccounts(st: State, pages: seq<string>, i: nat, cfg: Config)
    requires ValidConfig(cfg) && i < |pages| && Accounts(st, pages, i, cfg)
    ensures Accounts(State(st.emitted, st.buffer + pages[i], Push(st.window, pages[i], cfg.contextWindow)), pages, i + 1, cfg)
  {
    var ov := cfg.overlap;
    ConcatStep(pages, i);
    WindowStep(pages, i, cfg.contextWindow);
    if st.emitted != [] {
      assert Drop(st.buffer + pages[i], ov) == Drop(st.buffer, ov) + pages[i];
      assert (st.buffer + pages[i])[..ov] == st.buffer[..ov];
    }
  }

  /** Appending page `i` to the buffer and the deque keeps the invariant. */
  lemma AppendGood(st: State, pages: seq<string>, i: nat, cfg: Config)
    requires ValidConfig(cfg) && i < |pages| && Good(st, pages, i, cfg)
    ensures Good(State(st.emitted, st.buffer + pages[i], Push(st.window, pages[i], cfg.contextWindow)), pages, i + 1, cfg)
  {
    AppendAccounts(st, pages, i, cfg);
  }

  /** The chunk one cut yields. */
  function CutChunk(st: State, pages: seq<string>, i: nat, cfg: Config): Chunk
    requires ValidConfig(cfg) && |st.buffer| >= cfg.chunkSize
  {
    var bp := CutPoint(st.buffer, cfg.chunkSize);
    Chunk(st.buffer[..bp], ContextBefore(st.window, cfg.overlap), ContextAfter(pages, i, cfg.overlap), i)
  }

  lemma CutShape(st: State, pages: seq<string>, i: nat, cfg: Config)
    requires ValidConfig(cfg) && |st.buffer| >= cfg.chunkSize
    ensures var bp := CutPoint(st.buffer, cfg.chunkSize);
      Cut(st, pages, i, cfg) == State(st.emitted + [CutChunk(st, pages, i, cfg)], st.buffer[bp - cfg.overlap..], st.window)
  {
    CutUnfold(st, pages, i, cfg);
  }

  lemma CutIsCut(st: State, pages: seq<string>, i: nat, cfg: Config)
    requires ValidConfig(cfg) && i < |pages| && |st.buffer| >= cfg.chunkSize
    requires st.window == WindowAt(pages, i + 1, cfg.contextWindow)
    ensures IsCut(CutChunk(st, pages, i, cfg), pages, cfg)
  {
    var bp := CutPoint(st.buffer, cfg.chunkSize);
    var c := CutChunk(st, pages, i, cfg);
    assert c == Chunk(st.buffer[..bp], ContextBefore(st.window, cfg.overlap), ContextAfter(pages, i, cfg.overlap), i);
    CutText(st.buffer, cfg.chunkSize);
    IsCutIntro(c, pages, cfg);
  }

  /** The text one cut yields is of a cut's length and ends at `size` or just after a '.'. */
  lemma CutText(buffer: string, size: nat)
    requires 100 <= size <= |buffer|
    ensures var t := buffer[..CutPoint(buffer, size)];
      size - 99 <= |t| <= size + 100 && (|t| == size || (|t| > 0 && t[|t| - 1] == '.'))
  {
    CutPointSpec(buffer, size);
  }

  lemma IsCutIntro(c: Chunk, pages: seq<string>, cfg: Config)
    requires c.page < |pages|
    requires cfg.chunkSize - 99 <= |c.text| <= cfg.chunkSize + 100
    requires |c.text| == cfg.chunkSize || (|c.text| > 0 && c.text[|c.text| - 1] == '.')
    requires c.before == ContextBefore(WindowAt(pages, c.page + 1, cfg.contextWindow), cfg.overlap)
    requires c.after == ContextAfter(pages, c.page, cfg.overlap)
    ensures IsCut(c, pages, cfg)
  {
  }

  /** Cutting `b[..bp]` off the buffer, keeping the overlap, loses no text. */
  lemma CutCovered(e: seq<Chunk>, b: string, bp: nat, c: Chunk, w: seq<string>, ov: nat)
    requires ov < bp <= |b| && c.text == b[..bp]
    ensures Covered(State(e + [c], b[bp - ov..], w), ov) == Covered(State(e, b, w), ov)
  {
    assert Drop(b[bp - ov..], ov) == b[bp..];
    if e == [] {
      assert Reassemble([c], ov) == b[..bp];
      assert b[..bp] + b[bp..] == b;
    } else {
      ReassembleAppend(e, c, ov);
      assert Drop(c.text, ov) + b[bp..] == Drop(b, ov);
    }
  }

  lemma CutAccounts(st: State, pages: seq<string>, i: nat, cfg: Config)
    requires ValidConfig(cfg) && i < |pages| && Accounts(st, pages, i + 1, cfg) && |st.buffer| >= cfg.chunkSize
    ensures Accounts(Cut(st, pages, i, cfg), pages, i + 1, cfg)
  {
    var bp := CutPoint(st.buffer, cfg.chunkSize);
    CutShape(st, pages, i, cfg);
    SplitAccounts(st, CutChunk(st, pages, i, cfg), bp, pages, i, cfg);
  }

  /** Splitting `b[..bp]` off the buffer as a chunk, keeping the overlap, keeps the accounting. */
  lemma SplitAccounts(st: State, c: Chunk, bp: nat, pages: seq<string>, i: nat, cfg: Config)
    requires i < |pages| && Accounts(st, pages, i + 1, cfg) && |st.buffer| >= cfg.chunkSize
    requires cfg.overlap < bp <= |st.buffer| && c.text == st.buffer[..bp]
    ensures Accounts(State(st.emitted + [c], st.buffer[bp - cfg.overlap..], st.window), pages, i + 1, cfg)
  {
    var ov := cfg.overlap;
    var b := st.buffer;
    var st' := State(st.emitted + [c], b[bp - ov..], st.window);
    CutCovered(st.emitted, b, bp, c, st.window, ov);
    if st.emitted == [] {
      assert Covered(st, ov) == b;
    }
    assert Seeded(c.text, st'.buffer, ov);
  }

  lemma CutChained(st: State, pages: seq<string>, i: nat, cfg: Config)
    requires ValidConfig(cfg) && |st.buffer| >= cfg.chunkSize
    requires st.emitted != [] ==> Seeded(st.emitted[|st.emitted| - 1].text, st.buffer, cfg.overlap)
    requires Chained(st.emitted, cfg.overlap)
    ensures Chained(st.emitted + [CutChunk(st, pages, i, cfg)], cfg.overlap)
  {
    var c := CutChunk(st, pages, i, cfg);
    var cs := st.emitted + [c];
    if st.emitted != [] {
      assert c.text[..cfg.overlap] == st.buffer[..cfg.overlap];
      assert Seeded(cs[|cs| - 2].text, cs[|cs| - 1].text, cfg.overlap);
    }
  }

  lemma CutCutsOk(st: State, pages: seq<string>, i: nat, cfg: Config)
    requires ValidConfig(cfg) && i < |pages| && |st.buffer| >= cfg.chunkSize
    requires st.window == WindowAt(pages, i + 1, cfg.contextWindow)
    requires CutsOk(st.emitted, pages, i + 1, cfg)
    ensures CutsOk(st.emitted + [CutChunk(st, pages, i, cfg)], pages, i + 1, cfg)
  {
    CutIsCut(st, pages, i, cfg);
  }

  /** One cut keeps the invariant. */
  lemma CutGood(st: State, pages: seq<string>, i: nat, cfg: Config)
    requires ValidConfig(cfg) && i < |pages| && Good(st, pages, i + 1, cfg) && |st.buffer| >= cfg.chunkSize
    ensures Good(Cut(st, pages, i, cfg), pages, i + 1, cfg)
  {
    CutShape(st, pages, i, cfg);
    CutAccounts(st, pages, i, cfg);
    CutChained(st, pages, i, cfg);
    CutCutsOk(st, pages, i, cfg);
  }

  lemma {:induction false} DrainGood(st: State, pages: seq<string>, i: nat, cfg: Config)
    requires ValidConfig(cfg) && i < |pages| && Good(st, pages, i + 1, cfg)
    ensures Good(Drain(st, pages, i, cfg), pages, i + 1, cfg)
    decreases |st.buffer|
  {
    if |st.buffer| >= cfg.chunkSize {
      CutGood(st, pages, i, cfg);
      DrainGood(Cut(st, pages, i, cfg), pages, i, cfg);
    }
  }

  /** One outer-loop iteration keeps the invariant, one page further on. */
  lemma FeedGood(st: State, pages: seq<string>, i: nat, cfg: Config)
    requires ValidConfig(cfg) && i < |pages| && Good(st, pages, i, cfg)
    ensures Good(Feed(st, pages, i, cfg), pages, i + 1, cfg)
  {
    var fed := State(st.emitted, st.buffer + pages[i], Push(st.window, pages[i], cfg.contextWindow));
    AppendGood(st, pages, i, cfg);
    DrainGood(fed, pages, i, cfg);
  }

  lemma {:induction false} ScanGood(pages: seq<string>, i: nat, cfg: Config)
    requires ValidConfig(cfg) && i <= |pages|
    ensures Good(ScanTo(pages, i, cfg), pages, i, cfg)
    decreases i
  {
    if i == 0 {
      StartGood(pages, cfg);
    } else {
      var prev := ScanTo(pages, i - 1, cfg);
      ScanGood(pages, i - 1, cfg);
      FeedGood(prev, pages, i - 1, cfg);
      assert ScanTo(pages, i, cfg) == Feed(prev, pages, i - 1, cfg);
    }
  }

  lemma StartGood(pages: seq<string>, cfg: Config)
    requires ValidConfig(cfg)
    ensures Good(Start, pages, 0, cfg)
  {
    assert pages[..0] == [];
  }

  lemma PendingGood(pages: seq<string>, cfg: Config)
    requires ValidConfig(cfg)
    ensures Good(Pending(pages, cfg), pages, |pages|, cfg)
    ensures Covered(Pending(pages, cfg), cfg.overlap) == Concat(pages)
  {
    ScanGood(pages, |pages|, cfg);
    assert pages[..|pages|] == pages;
  }

  /** The tuples yielded at the end are the chunks cut so far, then at most one more. */
  lemma FinishPrefix(st: State, pages: seq<string>)
    requires st.buffer != "" ==> |pages| > 0
    ensures var cs := Finish(st, pages);
      && |st.emitted| <= |cs| <= |st.emitted| + 1
      && cs[..|st.emitted|] == st.emitted
      && (st.buffer == "" <==> |cs| == |st.emitted|)
  {
  }

  lemma FinishReassemble(st: State, pages: seq<string>, cfg: Config)
    requires st.buffer != "" ==> |pages| > 0
    ensures Reassemble(Finish(st, pages), cfg.overlap) == Covered(st, cfg.overlap)
  {
    if st.buffer == "" {
      FinishDrained(st, pages, cfg.overlap);
    } else {
      FinishLeftover(st, pages, cfg.overlap);
    }
  }

  lemma FinishDrained(st: State, pages: seq<string>, overlap: nat)
    requires st.buffer == ""
    ensures Reassemble(Finish(st, pages), overlap) == Covered(st, overlap)
  {
    assert Finish(st, pages) == st.emitted;
    if st.emitted != [] {
      DropEmpty(st.buffer, overlap);
      assert Covered(st, overlap) == Reassemble(st.emitted, overlap) + "";
    }
  }

  lemma DropEmpty(s: string, n: nat)
    requires s == ""
    ensures Drop(s, n) == ""
  {
  }

  lemma FinishLeftover(st: State, pages: seq<string>, overlap: nat)
    requires st.buffer != "" && |pages| > 0
    ensures Reassemble(Finish(st, pages), overlap) == Covered(st, overlap)
  {
    var before := if |st.window| > 1 then st.window[|st.window| - 2] else "";
    var c := Chunk(st.buffer, before, "", |pages| - 1);
    assert Finish(st, pages) == st.emitted + [c];
    if st.emitted == [] {
      assert st.emitted + [c] == [c];
    } else {
      ReassembleAppend(st.emitted, c, overlap);
    }
  }

  lemma FinishChained(st: State, pages: seq<string>, cfg: Config)
    requires ValidConfig(cfg) && Good(st, pages, |pages|, cfg)
    ensures Chained(Finish(st, pages), cfg.overlap)
  {
    var cs := Finish(st, pages);
    if st.buffer != "" && st.emitted != [] {
      assert cs == st.emitted + [cs[|cs| - 1]];
      assert Seeded(cs[|cs| - 2].text, cs[|cs| - 1].text, cfg.overlap);
    }
  }

  /** The state the outer loop leaves satisfies the invariant and accounts for the whole document. */
  lemma PendingFacts(pages: seq<string>, cfg: Config) returns (st: State)
    requires ValidConfig(cfg)
    ensures st == Pending(pages, cfg) && Chunks(pages, cfg) == Finish(st, pages)
    ensures Good(st, pages, |pages|, cfg) && Covered(st, cfg.overlap) == Concat(pages)
  {
    st := Pending(pages, cfg);
    PendingGood(pages, cfg);
  }

  /**
   * Lossless reconstruction: the first chunk followed by every later chunk
   * without its first `overlap` characters is exactly the document's text.
   */
  lemma ChunksReassemble(pages: seq<string>, cfg: Config)
    requires ValidConfig(cfg)
    ensures Reassemble(Chunks(pages, cfg), cfg.overlap) == Concat(pages)
  {
    var st := PendingFacts(pages, cfg);
    FinishReassemble(st, pages, cfg);
  }

  /**
   * Every chunk but the last is cut at `chunkSize`, or just after a '.' found
   * within 100 characters of it: its length lies in [chunkSize-99, chunkSize+100].
   */
  lemma ChunkCuts(pages: seq<string>, cfg: Config)
    requires ValidConfig(cfg)
    ensures var cs := Chunks(pages, cfg);
      forall k :: 0 <= k < |cs| - 1 ==>
        && cfg.chunkSize - 99 <= |cs[k].text| <= cfg.chunkSize + 100
        && (|cs[k].text| == cfg.chunkSize || cs[k].text[|cs[k].text| - 1] == '.')
  {
    var st := PendingFacts(pages, cfg);
    var cs := Finish(st, pages);
    FinishPrefix(st, pages);
    forall k | 0 <= k < |cs| - 1
      ensures IsCut(cs[k], pages, cfg)
    {
      assert cs[k] == st.emitted[k];
    }
  }

  /** Each chunk begins with the last `overlap` characters of the chunk before it. */
  lemma ChunkSeeds(pages: seq<string>, cfg: Config)
    requires ValidConfig(cfg)
    ensures Chained(Chunks(pages, cfg), cfg.overlap)
  {
    var st := PendingFacts(pages, cfg);
    FinishChained(st, pages, cfg);
  }

  /**
   * The context of every chunk but the last: `after` is at most the first
   * `overlap` characters of the next page ("" on the last page); `before` is
   * the tail of the previous buffered pages joined by " ", at most `overlap`
   * characters when `overlap` is positive.
   */
  lemma ChunkContexts(pages: seq<string>, cfg: Config)
    requires ValidConfig(cfg)
    ensures var cs := Chunks(pages, cfg);
      forall k :: 0 <= k < |cs| - 1 ==>
        && cs[k].page < |pages|
        && cs[k].after == ContextAfter(pages, cs[k].page, cfg.overlap)
        && |cs[k].after| <= cfg.overlap
        && (cs[k].page + 1 == |pages| ==> cs[k].after == "")
        && cs[k].before == ContextBefore(WindowAt(pages, cs[k].page + 1, cfg.contextWindow), cfg.overlap)
        && (cfg.overlap > 0 ==> |cs[k].before| <= cfg.overlap)
  {
    var st := PendingFacts(pages, cfg);
    var cs := Finish(st, pages);
    FinishPrefix(st, pages);
    forall k | 0 <= k < |cs| - 1
      ensures IsCut(cs[k], pages, cfg)
    {
      assert cs[k] == st.emitted[k];
    }
  }

  /** Chunks are yielded page by page: their page numbers never decrease. */
  lemma ChunkPagesOrdered(pages: seq<string>, cfg: Config)
    requires ValidConfig(cfg)
    ensures var cs := Chunks(pages, cfg);
      forall k :: 0 < k < |cs| ==> cs[k - 1].page <= cs[k].page
  {
    var st := PendingFacts(pages, cfg);
    var cs := Finish(st, pages);
    FinishPrefix(st, pages);
    forall k | 0 < k < |cs|
      ensures cs[k - 1].page <= cs[k].page
    {
      assert cs[k - 1] == st.emitted[k - 1];
      if k < |st.emitted| {
        assert cs[k] == st.emitted[k];
      }
    }
  }

  /**
   * Where chunk `k` of `cs` begins in the document: the end of the text the
   * chunks before it account for, less the overlap it repeats. For `k == |cs|`
   * it is where the buffer left after `cs` begins.
   */
  function ChunkStart(cs: seq<Chunk>, k: nat, overlap: nat): int
    requires k <= |cs|
  {
    if k == 0 then 0 else |Reassemble(cs[..k], overlap)| - overlap
  }

  /**
   * A chunk beginning at `start` is cut while page `c.page` is read: the pages
   * up to and including it hold a full chunk from `start`, the pages before it
   * do not.
   */
  ghost predicate ReadAt(c: Chunk, start: int, pages: seq<string>, cfg: Config)
  {
    && c.page < |pages|
    && start + cfg.chunkSize <= |Concat(pages[..c.page + 1])|
    && |Concat(pages[..c.page])| < start + cfg.chunkSize
  }

  /** Every chunk of `cs` is cut while the page it names is read. */
  ghost predicate Placed(cs: seq<Chunk>, pages: seq<string>, cfg: Config)
  {
    forall k :: 0 <= k < |cs| ==> ReadAt(cs[k], ChunkStart(cs, k, cfg.overlap), pages, cfg)
  }

  /** The buffer ends where the text of the pages read so far ends. */
  lemma BufferEnd(st: State, pages: seq<string>, i: nat, cfg: Config)
    requires i <= |pages| && Accounts(st, pages, i, cfg)
    ensures ChunkStart(st.emitted, |st.emitted|, cfg.overlap) + |st.buffer| == |Concat(pages[..i])|
  {
    if st.emitted != [] {
      assert st.emitted[..|st.emitted|] == st.emitted;
    }
  }

  lemma ChunkStartSnoc(cs: seq<Chunk>, c: Chunk, k: nat, overlap: nat)
    requires k <= |cs|
    ensures ChunkStart(cs + [c], k, overlap) == ChunkStart(cs, k, overlap)
  {
    assert (cs + [c])[..k] == cs[..k];
  }

  lemma PlacedSnoc(cs: seq<Chunk>, c: Chunk, pages: seq<string>, cfg: Config)
    requires Placed(cs, pages, cfg) && ReadAt(c, ChunkStart(cs, |cs|, cfg.overlap), pages, cfg)
    ensures Placed(cs + [c], pages, cfg)
  {
    var cs' := cs + [c];
    forall k | 0 <= k < |cs'|
      ensures ReadAt(cs'[k], ChunkStart(cs', k, cfg.overlap), pages, cfg)
    {
      ChunkStartSnoc(cs, c, k, cfg.overlap);
      if k < |cs| {
        assert cs'[k] == cs[k];
      }
    }
  }

  /**
   * A cut while page `i` is read, from a buffer that began before the pages
   * ahead of page `i` filled a chunk, yields a chunk placed on page `i`; the
   * buffer then begins further on.
   */
  lemma CutPlaced(st: State, pages: seq<string>, i: nat, cfg: Config)
    requires ValidConfig(cfg) && i < |pages| && Good(st, pages, i + 1, cfg) && |st.buffer| >= cfg.chunkSize
    requires Placed(st.emitted, pages, cfg)
    requires |Concat(pages[..i])| < ChunkStart(st.emitted, |st.emitted|, cfg.overlap) + cfg.chunkSize
    ensures var st' := Cut(st, pages, i, cfg);
      && Placed(st'.emitted, pages, cfg)
      && ChunkStart(st.emitted, |st.emitted|, cfg.overlap) < ChunkStart(st'.emitted, |st'.emitted|, cfg.overlap)
  {
    var st' := Cut(st, pages, i, cfg);
    CutShape(st, pages, i, cfg);
    BufferEnd(st, pages, i + 1, cfg);
    PlacedSnoc(st.emitted, CutChunk(st, pages, i, cfg), pages, cfg);
    CutAccounts(st, pages, i, cfg);
    BufferEnd(st', pages, i + 1, cfg);
  }

  lemma {:induction false} DrainPlaced(st: State, pages: seq<string>, i: nat, cfg: Config)
    requires ValidConfig(cfg) && i < |pages| && Good(st, pages, i + 1, cfg)
    requires Placed(st.emitted, pages, cfg)
    requires |Concat(pages[..i])| < ChunkStart(st.emitted, |st.emitted|, cfg.overlap) + cfg.chunkSize
    ensures Placed(Drain(st, pages, i, cfg).emitted, pages, cfg)
    decreases |st.buffer|
  {
    if |st.buffer| >= cfg.chunkSize {
      CutGood(st, pages, i, cfg);
      CutPlaced(st, pages, i, cfg);
      DrainPlaced(Cut(st, pages, i, cfg), pages, i, cfg);
    }
  }

  lemma FeedPlaced(st: State, pages: seq<string>, i: nat, cfg: Config)
    requires ValidConfig(cfg) && i < |pages| && Good(st, pages, i, cfg) && |st.buffer| < cfg.chunkSize
    requires Placed(st.emitted, pages, cfg)
    ensures Placed(Feed(st, pages, i, cfg).emitted, pages, cfg)
  {
    var fed := State(st.emitted, st.buffer + pages[i], Push(st.window, pages[i], cfg.contextWindow));
    AppendGood(st, pages, i, cfg);
    BufferEnd(st, pages, i, cfg);
    DrainPlaced(fed, pages, i, cfg);
  }

  lemma {:induction false} ScanPlaced(pages: seq<string>, i: nat, cfg: Config)
    requires ValidConfig(cfg) && i <= |pages|
    ensures Placed(ScanTo(pages, i, cfg).emitted, pages, cfg)
    decreases i
  {
    if i > 0 {
      ScanPlaced(pages, i - 1, cfg);
      ScanGood(pages, i - 1, cfg);
      FeedPlaced(ScanTo(pages, i - 1, cfg), pages, i - 1, cfg);
    }
  }

  /**
   * The page a chunk names is the page being read when it is cut: counting
   * from the chunk's offset in the document, the pages up to and including
   * that page hold at least `chunkSize` characters and the pages before it
   * fewer. (The chunk itself may end inside an earlier page when the '.' it
   * is cut after lies there.)
   */
  lemma ChunkPages(pages: seq<string>, cfg: Config)
    requires ValidConfig(cfg)
    ensures var cs := Chunks(pages, cfg);
      forall k :: 0 <= k < |cs| - 1 ==>
        && cs[k].page < |pages|
        && ChunkStart(cs, k, cfg.overlap) + cfg.chunkSize <= |Concat(pages[..cs[k].page + 1])|
        && |Concat(pages[..cs[k].page])| < ChunkStart(cs, k, cfg.overlap) + cfg.chunkSize
  {
    var st := PendingFacts(pages, cfg);
    var cs := Finish(st, pages);
    FinishPrefix(st, pages);
    ScanPlaced(pages, |pages|, cfg);
    forall k | 0 <= k < |cs| - 1
      ensures ReadAt(cs[k], ChunkStart(cs, k, cfg.overlap), pages, cfg)
    {
      assert cs[k] == st.emitted[k];
      assert cs[..k] == st.emitted[..k];
    }
  }

  /** The text the chunks account for ends with the last chunk. */
  lemma {:induction false} ReassembleEnds(cs: seq<Chunk>, overlap: nat)
    requires cs != [] && Chained(cs, overlap)
    ensures var r := Reassemble(cs, overlap);
      |cs[|cs| - 1].text| <= |r| && r[|r| - |cs[|cs| - 1].text|..] == cs[|cs| - 1].text
  {
    var n := |cs| - 1;
    if n > 0 {
      var init := cs[..n];
      ChainedPrefix(cs, n, overlap);
      ReassembleEnds(init, overlap);
      assert init[|init| - 1] == cs[n - 1];
      assert Seeded(cs[n - 1].text, cs[n].text, overlap);
      EndsStep(Reassemble(init, overlap), cs[n - 1].text, cs[n].text, overlap);
    }
  }

  /** A prefix of a chained sequence of chunks is chained. */
  lemma ChainedPrefix(cs: seq<Chunk>, j: nat, overlap: nat)
    requires j <= |cs| && Chained(cs, overlap)
    ensures Chained(cs[..j], overlap)
  {
    var pre := cs[..j];
    forall k | 0 < k < |pre| ensures Seeded(pre[k - 1].text, pre[k].text, overlap) {
      assert pre[k - 1] == cs[k - 1] && pre[k] == cs[k];
    }
  }

  /** A text ending with `prev`, extended by `t` past the overlap `t` shares with `prev`, ends with `t`. */
  lemma EndsStep(r0: string, prev: string, t: string, overlap: nat)
    requires |prev| <= |r0| && r0[|r0| - |prev|..] == prev && Seeded(prev, t, overlap)
    ensures var r := r0 + Drop(t, overlap); |t| <= |r| && r[|r| - |t|..] == t
  {
    var r := r0 + Drop(t, overlap);
    assert Drop(t, overlap) == t[overlap..];
    forall i | 0 <= i < |t| ensures r[|r| - |t| + i] == t[i] {
      if i < overlap {
        assert r[|r| - |t| + i] == r0[|r0| - overlap + i];
        assert r0[|r0| - overlap + i] == r0[|r0| - |prev|..][|prev| - overlap + i];
        assert prev[|prev| - overlap + i] == prev[|prev| - overlap..][i];
        assert t[..overlap][i] == t[i];
      }
    }
  }

  /** The text a prefix of the chunks accounts for is a prefix of what all of them account for. */
  lemma {:induction false} ReassemblePrefix(cs: seq<Chunk>, j: nat, overlap: nat)
    requires j <= |cs|
    ensures var p := Reassemble(cs[..j], overlap);
      |p| <= |Reassemble(cs, overlap)| && p == Reassemble(cs, overlap)[..|p|]
  {
    if j < |cs| {
      var n := |cs| - 1;
      ReassemblePrefix(cs[..n], j, overlap);
      assert cs[..n][..j] == cs[..j];
    } else {
      assert cs[..j] == cs;
    }
  }

  /** `c.text` is the piece of `doc` beginning at offset `s`. */
  ghost predicate StartsAt(c: Chunk, s: int, doc: string)
  {
    0 <= s && s + |c.text| <= |doc| && doc[s..s + |c.text|] == c.text
  }

  /** Each chunk is the piece of the document's text that begins at its offset. */
  lemma ChunkPositions(pages: seq<string>, cfg: Config)
    requires ValidConfig(cfg)
    ensures var cs := Chunks(pages, cfg);
      forall k :: 0 <= k < |cs| ==> StartsAt(cs[k], ChunkStart(cs, k, cfg.overlap), Concat(pages))
  {
    ChunksReassemble(pages, cfg);
    ChunkSeeds(pages, cfg);
    ChunksInText(Chunks(pages, cfg), Concat(pages), cfg.overlap);
  }

  lemma ChunksInText(cs: seq<Chunk>, doc: string, overlap: nat)
    requires Chained(cs, overlap) && Reassemble(cs, overlap) == doc
    ensures forall k :: 0 <= k < |cs| ==> StartsAt(cs[k], ChunkStart(cs, k, overlap), doc)
  {
    forall k | 0 <= k < |cs|
      ensures StartsAt(cs[k], ChunkStart(cs, k, overlap), doc)
    {
      ChunkInText(cs, doc, k, overlap);
    }
  }

  /** In the text chained chunks reassemble to, chunk `k` begins at its offset. */
  lemma ChunkInText(cs: seq<Chunk>, doc: string, k: nat, overlap: nat)
    requires k < |cs| && Chained(cs, overlap) && Reassemble(cs, overlap) == doc
    ensures StartsAt(cs[k], ChunkStart(cs, k, overlap), doc)
  {
    ChunkAt(cs, k, overlap);
    ReassemblePrefix(cs, k + 1, overlap);
    var r := Reassemble(cs[..k + 1], overlap);
    var s := ChunkStart(cs, k, overlap);
    assert doc[s..s + |cs[k].text|] == r[s..];
  }

  /**
   * No piece of the document at most `overlap` characters long is lost at a
   * seam: some chunk holds it whole, so the analysis sees it in one piece.
   */
  lemma SeamCovered(pages: seq<string>, cfg: Config, a: nat, b: nat)
    requires ValidConfig(cfg) && a <= b <= |Concat(pages)| && b - a <= cfg.overlap && Concat(pages) != ""
    ensures var cs := Chunks(pages, cfg);
      exists k :: 0 <= k < |cs| && ChunkStart(cs, k, cfg.overlap) <= a
        && b <= ChunkStart(cs, k, cfg.overlap) + |cs[k].text|
  {
    var cs := Chunks(pages, cfg);
    var ov := cfg.overlap;
    ChunksReassemble(pages, cfg);
    ChunkSeeds(pages, cfg);
    NoChunksIffEmpty(pages, cfg);
    var k := 0;
    ChunkAt(cs, 0, ov);
    while ChunkStart(cs, k, ov) + |cs[k].text| < b
      invariant 0 <= k < |cs| && ChunkStart(cs, k, ov) <= a
      invariant ChunkStart(cs, k, ov) + |cs[k].text| == |Reassemble(cs[..k + 1], ov)|
      decreases |cs| - k
    {
      k := k + 1;
      ChunkAt(cs, k, ov);
    }
  }

  /** Chunk `k` is the end of the text the chunks up to it account for, from its offset on. */
  lemma ChunkAt(cs: seq<Chunk>, k: nat, overlap: nat)
    requires k < |cs| && Chained(cs, overlap)
    ensures var r := Reassemble(cs[..k + 1], overlap); var s := ChunkStart(cs, k, overlap);
      0 <= s && s + |cs[k].text| == |r| && r[s..] == cs[k].text
  {
    var pre := cs[..k + 1];
    ChainedPrefix(cs, k + 1, overlap);
    ReassembleEnds(pre, overlap);
    assert pre[|pre| - 1] == cs[k];
    if k > 0 {
      assert pre[..k] == cs[..k];
      assert Seeded(cs[k - 1].text, cs[k].text, overlap);
    }
  }

  /** The tuple yielded last from a state whose buffer is shorter than `chunkSize`. */
  lemma FinishLast(st: State, pages: seq<string>, cfg: Config)
    requires |st.buffer| < cfg.chunkSize && st.window == WindowAt(pages, |pages|, cfg.contextWindow)
    requires st.buffer != "" ==> |pages| > 0
    requires st.emitted != [] ==> st.buffer != ""
    ensures var cs := Finish(st, pages);
      cs != [] ==>
        var last := cs[|cs| - 1];
        && |last.text| < cfg.chunkSize
        && last.after == ""
        && last.page == |pages| - 1
        && last.before == if MinNat(|pages|, cfg.contextWindow) > 1 then pages[|pages| - 2] else ""
  {
    var w := st.window;
    if st.buffer != "" && |w| > 1 {
      assert w[|w| - 2] == pages[|pages| - 2];
    }
  }

  /**
   * With a positive overlap, the final chunk (the buffer left once every page
   * is consumed) is shorter than `chunkSize`, has no `after` context, is
   * attributed to the last page, and carries the whole text of the page before
   * the last as `before` when the deque holds two pages.
   */
  lemma FinalChunk(pages: seq<string>, cfg: Config)
    requires ValidConfig(cfg) && cfg.overlap > 0
    ensures var cs := Chunks(pages, cfg);
      cs != [] ==>
        var last := cs[|cs| - 1];
        && |last.text| < cfg.chunkSize
        && last.after == ""
        && last.page == |pages| - 1
        && last.before == if MinNat(|pages|, cfg.contextWindow) > 1 then pages[|pages| - 2] else ""
  {
    var st := PendingFacts(pages, cfg);
    assert st.emitted != [] ==> st.buffer != "";
    FinishLast(st, pages, cfg);
  }

  lemma ReassembleNonEmpty(chunks: seq<Chunk>, overlap: nat)
    requires chunks != []
    ensures |Reassemble(chunks, overlap)| >= |chunks[0].text|
  {
    if |chunks| > 1 {
      ReassembleNonEmpty(chunks[..|chunks| - 1], overlap);
    }
  }

  /** A document yields no chunk exactly when its text is empty. */
  lemma NoChunksIffEmpty(pages: seq<string>, cfg: Config)
    requires ValidConfig(cfg)
    ensures Chunks(pages, cfg) == [] <==> Concat(pages) == ""
  {
    var st := PendingFacts(pages, cfg);
    FinishReassemble(st, pages, cfg);
  }

  /**
   * A non-empty document shorter than `chunkSize` yields exactly one chunk: the
   * whole text, no `after` context, and as `before` the page before the last
   * ("" for a one-page document).
   */
  lemma ShortDocumentOneChunk(pages: seq<string>, cfg: Config)
    requires ValidConfig(cfg) && 0 < |Concat(pages)| < cfg.chunkSize
    ensures Chunks(pages, cfg) ==
      [Chunk(Concat(pages), if MinNat(|pages|, cfg.contextWindow) > 1 then pages[|pages| - 2] else "", "", |pages| - 1)]
  {
    var st := PendingFacts(pages, cfg);
    assert pages[..|pages|] == pages;
    assert st.emitted == [];
  }

  /**
   * As written, the generator raises on the final yield for every document of
   * two or more pages with some text (with the default deque length and a
   * positive overlap).
   */
  lemma AsWrittenFailsOnMultiPage(pages: seq<string>, cfg: Config)
    requires ValidConfig(cfg) && cfg.overlap > 0 && cfg.contextWindow >= 2
    requires |pages| >= 2 && Concat(pages) != ""
    ensures ChunksAsWritten(pages, cfg) == Failure(AttributeError)
  {
    var st := PendingFacts(pages, cfg);
    assert st.buffer != "";
  }

  /** A two-page document with the default configuration shows the failure. */
  lemma AsWrittenCounterexample()
    ensures ChunksAsWritten(["Contact Jane Doe", "at jane@example.com."], DefaultConfig) == Failure(AttributeError)
  {
    var pages := ["Contact Jane Doe", "at jane@example.com."];
    assert Concat(pages) == Concat(pages[..1]) + pages[1];
    AsWrittenFailsOnMultiPage(pages, DefaultConfig);
  }
}
