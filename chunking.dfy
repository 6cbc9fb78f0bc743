/**
 * The chunker of the large-document redactor: page texts are appended to a
 * running buffer; whenever the buffer holds at least `chunkSize` characters a
 * chunk is cut from its front (just after a '.' near the cut when there is one)
 * and the buffer keeps the last `overlap` characters of that chunk. Each chunk
 * carries a bounded excerpt of the pages before it and of the page after it.
 */
module Chunking {
  import opened Wrappers
  import opened PyText

  /** `chunk_size`, `overlap` and `context_window` (the deque's maxlen). */
  datatype Config = Config(chunkSize: nat, overlap: nat, contextWindow: nat)

  const DefaultConfig: Config := Config(50000, 5000, 3)

  /**
   * The configurations the generator is meant for: the window searched for a
   * '.' starts at a non-negative offset, and every cut point lies beyond the
   * overlap, so the buffer shrinks at each cut.
   */
  predicate ValidConfig(cfg: Config)
  {
    cfg.overlap + 100 <= cfg.chunkSize
  }

  /** One yielded tuple: (chunk, context_before, context_after, page index). */
  datatype Chunk = Chunk(text: string, before: string, after: string, page: nat)

  /**
   * The generator's local state between steps: the chunks yielded so far, the
   * running text `current_text`, and the page-text deque `context_buffer`.
   */
  datatype State = State(emitted: seq<Chunk>, buffer: string, window: seq<string>)

  const Start: State := State([], "", [])

  /**
   * The break point: just after the first '.' in `buffer[size-100 : size+100]`
   * when that slice holds one, `size` otherwise.
   */
  function CutPoint(buffer: string, size: nat): (bp: nat)
    requires 100 <= size <= |buffer|
    ensures size - 99 <= bp <= size + 100 && bp <= |buffer|
  {
    var hi := MinNat(size + 100, |buffer|);
    if '.' in buffer[size - 100..hi] then Find(buffer, '.', size - 100, hi).value + 1 else size
  }

  /**
   * The break point follows the first '.' of the window around `size` when
   * the window holds one, and is `size` itself otherwise.
   */
  lemma CutPointSpec(buffer: string, size: nat)
    requires 100 <= size <= |buffer|
    ensures
      var bp := CutPoint(buffer, size);
      var hi := MinNat(size + 100, |buffer|);
      if '.' in buffer[size - 100..hi]
      then size - 100 < bp && buffer[bp - 1] == '.' && '.' !in buffer[size - 100..bp - 1]
      else bp == size
  {
  }

  /** `deque(maxlen=maxlen).append(x)`: the oldest entries fall off the front. */
  function Push(window: seq<string>, x: string, maxlen: nat): (w: seq<string>)
    ensures |w| == MinNat(|window| + 1, maxlen)
    ensures w == (window + [x])[|window| + 1 - |w|..]
  {
    if |window| + 1 <= maxlen then window + [x] else (window + [x])[|window| + 1 - maxlen..]
  }

  /** `" ".join(list(context_buffer)[:-1])[-overlap:]`, or "" when the join is empty. */
  function ContextBefore(window: seq<string>, overlap: nat): string
  {
    var joined := JoinSpace(if |window| == 0 then [] else window[..|window| - 1]);
    if joined == "" then "" else Tail(joined, overlap)
  }

  /**
   * The `before` context is the end of the buffered pages other than the newest,
   * joined by spaces: empty while the deque holds at most one page, and at most
   * `overlap` characters when `overlap` is positive (`s[-0:]` keeps it whole).
   */
  lemma ContextBeforeTail(window: seq<string>, overlap: nat)
    ensures var r := ContextBefore(window, overlap);
      var joined := JoinSpace(if |window| == 0 then [] else window[..|window| - 1]);
      && (|window| <= 1 ==> r == "")
      && (overlap > 0 ==> |r| <= overlap)
      && (overlap == 0 ==> r == joined)
      && |r| <= |joined| && r == joined[|joined| - |r|..]
  {
  }

  /** The next page's text cut to `overlap` characters, or "" on the last page. */
  function ContextAfter(pages: seq<string>, i: nat, overlap: nat): string
  {
    if i + 1 < |pages| then
      var next := pages[i + 1];
      if next == "" then "" else Head(next, overlap)
    else ""
  }

  /** The `after` context is the first `overlap` characters of the next page, and empty on the last. */
  lemma ContextAfterHead(pages: seq<string>, i: nat, overlap: nat)
    ensures var r := ContextAfter(pages, i, overlap);
      && |r| <= overlap
      && (i + 1 < |pages| ==> |r| == MinNat(overlap, |pages[i + 1]|) && r == pages[i + 1][..|r|])
      && (i + 1 >= |pages| ==> r == "")
  {
  }

  /** One cut: the chunk `buffer[:bp]` is yielded and the buffer becomes `buffer[bp-overlap:]`. */
  function Cut(st: State, pages: seq<string>, i: nat, cfg: Config): (r: State)
    requires ValidConfig(cfg) && |st.buffer| >= cfg.chunkSize
    ensures |r.buffer| < |st.buffer|
  {
    var bp := CutPoint(st.buffer, cfg.chunkSize);
    var c := Chunk(st.buffer[..bp], ContextBefore(st.window, cfg.overlap),
                   ContextAfter(pages, i, cfg.overlap), i);
    State(st.emitted + [c], st.buffer[bp - cfg.overlap..], st.window)
  }

  lemma CutUnfold(st: State, pages: seq<string>, i: nat, cfg: Config)
    requires ValidConfig(cfg) && |st.buffer| >= cfg.chunkSize
    ensures var bp := CutPoint(st.buffer, cfg.chunkSize);
      Cut(st, pages, i, cfg) ==
      State(st.emitted + [Chunk(st.buffer[..bp], ContextBefore(st.window, cfg.overlap),
                                ContextAfter(pages, i, cfg.overlap), i)],
            st.buffer[bp - cfg.overlap..], st.window)
  {
  }

  /** The inner `while len(current_text) >= chunk_size` loop, run while page `i` is current. */
  function Drain(st: State, pages: seq<string>, i: nat, cfg: Config): (r: State)
    requires ValidConfig(cfg)
    ensures |r.buffer| < cfg.chunkSize
    ensures r.window == st.window
    decreases |st.buffer|
  {
    if |st.buffer| < cfg.chunkSize then st else Drain(Cut(st, pages, i, cfg), pages, i, cfg)
  }

  lemma DrainStep(st: State, pages: seq<string>, i: nat, cfg: Config)
    requires ValidConfig(cfg) && |st.buffer| >= cfg.chunkSize
    ensures Drain(st, pages, i, cfg) == Drain(Cut(st, pages, i, cfg), pages, i, cfg)
  {
  }

  /** One iteration of the outer loop: page `i` enters the deque and the buffer, then cuts follow. */
  function Feed(st: State, pages: seq<string>, i: nat, cfg: Config): (r: State)
    requires ValidConfig(cfg) && i < |pages|
    ensures |r.buffer| < cfg.chunkSize
    ensures r.window == Push(st.window, pages[i], cfg.contextWindow)
  {
    var w := Push(st.window, pages[i], cfg.contextWindow);
    Drain(State(st.emitted, st.buffer + pages[i], w), pages, i, cfg)
  }

  /** The state after the outer loop has run for the first `i` pages. */
  function ScanTo(pages: seq<string>, i: nat, cfg: Config): (r: State)
    requires ValidConfig(cfg) && i <= |pages|
    ensures |r.buffer| < cfg.chunkSize
    decreases i
  {
    if i == 0 then Start else Feed(ScanTo(pages, i - 1, cfg), pages, i - 1, cfg)
  }

  lemma ScanStep(pages: seq<string>, i: nat, cfg: Config)
    requires ValidConfig(cfg) && i < |pages|
    ensures ScanTo(pages, i + 1, cfg) == Feed(ScanTo(pages, i, cfg), pages, i, cfg)
  {
  }

  /** The state after the outer loop has consumed every page. */
  function Pending(pages: seq<string>, cfg: Config): State
    requires ValidConfig(cfg)
  {
    ScanTo(pages, |pages|, cfg)
  }

  /**
   * The tuples yielded from a state in which every page has been consumed: the
   * chunks cut so far, then what is left in the buffer, if anything, with the
   * text of the second-to-last buffered page as its context (what line 80
   * evidently means).
   */
  function Finish(st: State, pages: seq<string>): (r: seq<Chunk>)
    requires st.buffer != "" ==> |pages| > 0
    ensures st.emitted <= r
    ensures st.buffer == "" <==> |r| == |st.emitted|
    ensures st.buffer != "" ==>
      |r| == |st.emitted| + 1 && r[|r| - 1].text == st.buffer && r[|r| - 1].after == "" && r[|r| - 1].page == |pages| - 1
  {
    if st.buffer == "" then st.emitted
    else
      var before := if |st.window| > 1 then st.window[|st.window| - 2] else "";
      st.emitted + [Chunk(st.buffer, before, "", |pages| - 1)]
  }

  /** Every tuple the generator yields. */
  function Chunks(pages: seq<string>, cfg: Config): (r: seq<Chunk>)
    requires ValidConfig(cfg)
    ensures Pending(pages, cfg).emitted <= r
    ensures |r| <= |Pending(pages, cfg).emitted| + 1
  {
    Finish(Pending(pages, cfg), pages)
  }

  /** `'str' object has no attribute 'get_text'` */
  datatype ChunkError = AttributeError

  /**
   * The final yield as written: it calls `.get_text()` on a string taken from
   * the deque whenever the deque holds more than one page.
   */
  function FinishAsWritten(st: State, pages: seq<string>): (r: Result<seq<Chunk>, ChunkError>)
    requires st.buffer != "" ==> |pages| > 0
    ensures r.Failure? <==> st.buffer != "" && |st.window| > 1
    ensures r.Success? ==> r.value == Finish(st, pages)
  {
    if st.buffer == "" then Success(st.emitted)
    else if |st.window| > 1 then Failure(AttributeError)
    else Success(st.emitted + [Chunk(st.buffer, "", "", |pages| - 1)])
  }

  /** The generator as written, run to exhaustion. */
  function ChunksAsWritten(pages: seq<string>, cfg: Config): (r: Result<seq<Chunk>, ChunkError>)
    requires ValidConfig(cfg)
    ensures r.Failure? <==> Pending(pages, cfg).buffer != "" && |Pending(pages, cfg).window| > 1
    ensures r.Success? ==> r.value == Chunks(pages, cfg)
  {
    FinishAsWritten(Pending(pages, cfg), pages)
  }

  /** One iteration of the inner loop: lines 52-72 cut one chunk and keep the overlap. */
  method CutOnce(chunks0: seq<Chunk>, buffer0: string, window: seq<string>, pages: seq<string>,
                 page: nat, cfg: Config)
    returns (chunks: seq<Chunk>, buffer: string)
    requires ValidConfig(cfg) && |buffer0| >= cfg.chunkSize
    ensures State(chunks, buffer, window) == Cut(State(chunks0, buffer0, window), pages, page, cfg)
  {
    var bp := CutPoint(buffer0, cfg.chunkSize);
    var before := ContextBefore(window, cfg.overlap);
    var after := ContextAfter(pages, page, cfg.overlap);
    chunks := chunks0 + [Chunk(buffer0[..bp], before, after, page)];
    buffer := buffer0[bp - cfg.overlap..];
    CutUnfold(State(chunks0, buffer0, window), pages, page, cfg);
  }

  /** The inner loop: chunks are cut from the buffer until it is shorter than `chunkSize`. */
  method CutChunks(chunks0: seq<Chunk>, buffer0: string, window: seq<string>, pages: seq<string>,
                   page: nat, cfg: Config)
    returns (chunks: seq<Chunk>, buffer: string)
    requires ValidConfig(cfg)
    ensures State(chunks, buffer, window) == Drain(State(chunks0, buffer0, window), pages, page, cfg)
  {
    chunks, buffer := chunks0, buffer0;
    while |buffer| >= cfg.chunkSize
      invariant Drain(State(chunks, buffer, window), pages, page, cfg)
             == Drain(State(chunks0, buffer0, window), pages, page, cfg)
      decreases |buffer|
    {
      DrainStep(State(chunks, buffer, window), pages, page, cfg);
      chunks, buffer := CutOnce(chunks, buffer, window, pages, page, cfg);
    }
  }

  /** One outer iteration: page `page` joins the deque and the buffer, then the inner loop runs. */
  method ReadPage(chunks0: seq<Chunk>, buffer0: string, window0: seq<string>, pages: seq<string>,
                  page: nat, cfg: Config)
    returns (chunks: seq<Chunk>, buffer: string, window: seq<string>)
    requires ValidConfig(cfg) && page < |pages|
    requires State(chunks0, buffer0, window0) == ScanTo(pages, page, cfg)
    ensures State(chunks, buffer, window) == Feed(State(chunks0, buffer0, window0), pages, page, cfg)
    ensures State(chunks, buffer, window) == ScanTo(pages, page + 1, cfg)
  {
    window := Push(window0, pages[page], cfg.contextWindow);
    chunks, buffer := CutChunks(chunks0, buffer0 + pages[page], window, pages, page, cfg);
    ScanStep(pages, page, cfg);
  }

  /** The final `if current_text` yield, once every page has been consumed. */
  method Flush(chunks0: seq<Chunk>, buffer: string, window: seq<string>, pages: seq<string>)
    returns (chunks: seq<Chunk>)
    requires buffer != "" ==> |pages| > 0
    ensures chunks == Finish(State(chunks0, buffer, window), pages)
  {
    chunks := chunks0;
    if buffer != "" {
      var before := if |window| > 1 then window[|window| - 2] else "";
      chunks := chunks + [Chunk(buffer, before, "", |pages| - 1)];
    }
  }

  /** The outer `while current_page < len(doc)` loop: every page is read in turn. */
  method ScanPages(pages: seq<string>, cfg: Config)
    returns (chunks: seq<Chunk>, buffer: string, window: seq<string>)
    requires ValidConfig(cfg)
    ensures State(chunks, buffer, window) == Pending(pages, cfg)
  {
    window := [];
    buffer := "";
    chunks := [];
    assert State(chunks, buffer, window) == ScanTo(pages, 0, cfg);
    for page := 0 to |pages|
      invariant State(chunks, buffer, window) == ScanTo(pages, page, cfg)
    {
      chunks, buffer, window := ReadPage(chunks, buffer, window, pages, page, cfg);
    }
  }

  /** `chunk_document`: the generator, run to exhaustion. */
  method ChunkDocument(pages: seq<string>, cfg: Config) returns (chunks: seq<Chunk>)
    requires ValidConfig(cfg)
    ensures chunks == Chunks(pages, cfg)
  {
    var buffer, window;
    chunks, buffer, window := ScanPages(pages, cfg);
    chunks := Flush(chunks, buffer, window, pages);
  }
}
