/**
 * Entity detection of the large-document redactor: every chunk is analysed
 * with its context, and the literals found are gathered into one set; the
 * set is then widened with the caller's keywords and with every match of
 * every custom regular expression on every page.
 */
module LargeAnalysis {
  import opened Wrappers
  import opened PyText
  import opened Engines
  import opened Chunking

  function ToSet(xs: seq<string>): set<string>
  {
    set x | x in xs
  }

  /** `f"{context_before} {chunk} {context_after}"` */
  function AnalysisText(c: Chunk): (r: string)
    ensures |r| == |c.before| + |c.text| + |c.after| + 2
    ensures r[|c.before| + 1..|c.before| + 1 + |c.text|] == c.text
  {
    c.before + " " + c.text + " " + c.after
  }

  /**
   * `process_text_chunk`: the text of every result the recognizer reports, in
   * its order; nothing when the recognizer raises (the error is logged).
   */
  function ProcessTextChunk(analyze: Recognizer, text: string): (r: seq<string>)
    ensures analyze(text).None? ==> r == []
    ensures analyze(text).Some? ==>
      && |r| == |analyze(text).value|
      && forall k :: 0 <= k < |r| ==> r[k] == Literal(text, analyze(text).value[k])
  {
    match analyze(text)
    case None => []
    case Some(spans) => seq(|spans|, k requires 0 <= k < |spans| => Literal(text, spans[k]))
  }

  /** The set `analyze_document` accumulates over the chunks `chunks`. */
  function Detected(analyze: Recognizer, chunks: seq<Chunk>): set<string>
  {
    UnionMap(chunks, c => ToSet(ProcessTextChunk(analyze, AnalysisText(c))))
  }

  /** A literal comes out of one analysis exactly when it is the text of one of the recognizer's results. */
  lemma ProcessTextChunkIff(analyze: Recognizer, text: string, e: string)
    ensures e in ProcessTextChunk(analyze, text) <==>
      analyze(text).Some? && exists j :: 0 <= j < |analyze(text).value| && Literal(text, analyze(text).value[j]) == e
  {
    var r := ProcessTextChunk(analyze, text);
    if e in r {
      var j :| 0 <= j < |r| && r[j] == e;
    }
  }

  /**
   * A literal is detected exactly when it is the text of a result the
   * recognizer reports on some chunk with its context; a chunk whose analysis
   * raises contributes nothing.
   */
  lemma DetectedIff(analyze: Recognizer, chunks: seq<Chunk>, e: string)
    ensures e in Detected(analyze, chunks) <==>
      exists k, j ::
        && 0 <= k < |chunks| && analyze(AnalysisText(chunks[k])).Some?
        && 0 <= j < |analyze(AnalysisText(chunks[k])).value|
        && Literal(AnalysisText(chunks[k]), analyze(AnalysisText(chunks[k])).value[j]) == e
  {
    DetectedChunk(analyze, chunks, e);
    if e in Detected(analyze, chunks) {
      var k :| 0 <= k < |chunks| && e in ProcessTextChunk(analyze, AnalysisText(chunks[k]));
      ProcessTextChunkIff(analyze, AnalysisText(chunks[k]), e);
    }
    if exists k, j ::
        && 0 <= k < |chunks| && analyze(AnalysisText(chunks[k])).Some?
        && 0 <= j < |analyze(AnalysisText(chunks[k])).value|
        && Literal(AnalysisText(chunks[k]), analyze(AnalysisText(chunks[k])).value[j]) == e {
      var k, j :|
        && 0 <= k < |chunks| && analyze(AnalysisText(chunks[k])).Some?
        && 0 <= j < |analyze(AnalysisText(chunks[k])).value|
        && Literal(AnalysisText(chunks[k]), analyze(AnalysisText(chunks[k])).value[j]) == e;
      ProcessTextChunkIff(analyze, AnalysisText(chunks[k]), e);
    }
  }

  /** The set is the union of the literals of each chunk's analysis. */
  lemma DetectedChunk(analyze: Recognizer, chunks: seq<Chunk>, e: string)
    ensures e in Detected(analyze, chunks) <==>
      exists k :: 0 <= k < |chunks| && e in ProcessTextChunk(analyze, AnalysisText(chunks[k]))
  {
    UnionMapMember(chunks, c => ToSet(ProcessTextChunk(analyze, AnalysisText(c))), e);
  }

  /** `analyze_document`: run the chunker and analyse every chunk it yields. */
  method AnalyzeDocument(pages: seq<string>, cfg: Config, analyze: Recognizer) returns (entities: seq<string>)
    requires ValidConfig(cfg)
    ensures forall e :: e in entities <==> e in Detected(analyze, Chunks(pages, cfg))
    ensures forall i, j :: 0 <= i < j < |entities| ==> entities[i] != entities[j]
  {
    var chunks := ChunkDocument(pages, cfg);
    var all: set<string> := {};
    var i := 0;
    while i < |chunks|
      invariant i <= |chunks|
      invariant all == Detected(analyze, chunks[..i])
    {
      var found := ProcessTextChunk(analyze, AnalysisText(chunks[i]));
      assert chunks[..i + 1][..i] == chunks[..i];
      all := all + ToSet(found);
      i := i + 1;
    }
    assert chunks[..i] == chunks;
    entities := ListOf(all);
  }

  /** The literal text of each of the matches `spans` in `text`. */
  function MatchLiterals(text: string, spans: seq<Span>): set<string>
  {
    set sp | sp in spans :: Literal(text, sp)
  }

  /** `text[m.start():m.end()]` for every match of `pattern` on one page, or None when it raises. */
  function PageHits(matcher: Matcher, pattern: string, text: string): Option<set<string>>
  {
    match matcher(pattern, text)
    case None => None
    case Some(spans) => Some(MatchLiterals(text, spans))
  }

  /** The literals of every match of `pattern` on every page, or None when it raises. */
  function PatternHits(matcher: Matcher, pattern: string, texts: seq<string>): Option<set<string>>
  {
    UnionOfMap(texts, t => PageHits(matcher, pattern, t))
  }

  /** The regular-expression literals over all patterns, or None when one of them raises. */
  function RegexHits(matcher: Matcher, patterns: seq<string>, texts: seq<string>): Option<set<string>>
  {
    UnionOfMap(patterns, q => PatternHits(matcher, q, texts))
  }

  /** A pattern hit fails exactly when the pattern fails on some page. */
  lemma PatternHitsNoneIff(matcher: Matcher, pattern: string, texts: seq<string>)
    ensures PatternHits(matcher, pattern, texts).None? <==>
      exists j :: 0 <= j < |texts| && matcher(pattern, texts[j]).None?
  {
    UnionOfMapNoneIff(texts, t => PageHits(matcher, pattern, t));
  }

  /** The literals of one pattern are the texts of its matches on all pages. */
  lemma PatternHitsIff(matcher: Matcher, pattern: string, texts: seq<string>, x: string)
    requires PatternHits(matcher, pattern, texts).Some?
    ensures forall j :: 0 <= j < |texts| ==> matcher(pattern, texts[j]).Some?
    ensures x in PatternHits(matcher, pattern, texts).value <==>
      exists j :: 0 <= j < |texts| && x in MatchLiterals(texts[j], matcher(pattern, texts[j]).value)
  {
    UnionOfMapMember(texts, t => PageHits(matcher, pattern, t), x);
  }

  /** The custom expressions fail exactly when one of them fails on some page. */
  lemma RegexHitsNoneIff(matcher: Matcher, patterns: seq<string>, texts: seq<string>)
    ensures RegexHits(matcher, patterns, texts).None? <==>
      exists i, j :: 0 <= i < |patterns| && 0 <= j < |texts| && matcher(patterns[i], texts[j]).None?
  {
    UnionOfMapNoneIff(patterns, q => PatternHits(matcher, q, texts));
    if RegexHits(matcher, patterns, texts).None? {
      var i :| 0 <= i < |patterns| && PatternHits(matcher, patterns[i], texts).None?;
      PatternHitsNoneIff(matcher, patterns[i], texts);
    }
    if exists i, j :: 0 <= i < |patterns| && 0 <= j < |texts| && matcher(patterns[i], texts[j]).None? {
      var i, j :| 0 <= i < |patterns| && 0 <= j < |texts| && matcher(patterns[i], texts[j]).None?;
      PatternHitsNoneIff(matcher, patterns[i], texts);
    }
  }

  /**
   * When no expression fails, its literals are exactly the texts of all
   * matches of every pattern on every page.
   */
  lemma RegexHitsIff(matcher: Matcher, patterns: seq<string>, texts: seq<string>, x: string)
    requires RegexHits(matcher, patterns, texts).Some?
    ensures forall i, j :: 0 <= i < |patterns| && 0 <= j < |texts| ==> matcher(patterns[i], texts[j]).Some?
    ensures x in RegexHits(matcher, patterns, texts).value <==>
      exists i, j :: 0 <= i < |patterns| && 0 <= j < |texts|
        && x in MatchLiterals(texts[j], matcher(patterns[i], texts[j]).value)
  {
    UnionOfMapMember(patterns, q => PatternHits(matcher, q, texts), x);
    forall i | 0 <= i < |patterns|
      ensures forall j :: 0 <= j < |texts| ==> matcher(patterns[i], texts[j]).Some?
    {
      PatternHitsIff(matcher, patterns[i], texts, x);
    }
    if x in RegexHits(matcher, patterns, texts).value {
      var i :| 0 <= i < |patterns| && x in PatternHits(matcher, patterns[i], texts).value;
      PatternHitsIff(matcher, patterns[i], texts, x);
    }
    if exists i, j :: 0 <= i < |patterns| && 0 <= j < |texts|
        && x in MatchLiterals(texts[j], matcher(patterns[i], texts[j]).value) {
      var i, j :| 0 <= i < |patterns| && 0 <= j < |texts|
        && x in MatchLiterals(texts[j], matcher(patterns[i], texts[j]).value);
      PatternHitsIff(matcher, patterns[i], texts, x);
    }
  }

  /** The nested `for pattern in custom_regex: for page in doc:` loops. */
  method CollectRegexMatches(matcher: Matcher, patterns: seq<string>, texts: seq<string>)
    returns (r: Option<set<string>>)
    ensures r == RegexHits(matcher, patterns, texts)
  {
    var hits: set<string> := {};
    var i := 0;
    while i < |patterns|
      invariant i <= |patterns|
      invariant RegexHits(matcher, patterns[..i], texts) == Some(hits)
    {
      assert patterns[..i + 1] == patterns[..i] + [patterns[i]];
      UnionOfMapSnoc(patterns[..i], q => PatternHits(matcher, q, texts), patterns[i]);
      var found := CollectPatternMatches(matcher, patterns[i], texts);
      if found.None? {
        RegexHitsNoneIff(matcher, patterns, texts);
        PatternHitsNoneIff(matcher, patterns[i], texts);
        return None;
      }
      hits := hits + found.value;
      i := i + 1;
    }
    assert patterns[..i] == patterns;
    r := Some(hits);
  }

  /** The inner `for page in doc:` loop for one pattern. */
  method CollectPatternMatches(matcher: Matcher, pattern: string, texts: seq<string>)
    returns (r: Option<set<string>>)
    ensures r == PatternHits(matcher, pattern, texts)
  {
    var hits: set<string> := {};
    var j := 0;
    while j < |texts|
      invariant j <= |texts|
      invariant PatternHits(matcher, pattern, texts[..j]) == Some(hits)
    {
      assert texts[..j + 1] == texts[..j] + [texts[j]];
      UnionOfMapSnoc(texts[..j], t => PageHits(matcher, pattern, t), texts[j]);
      var m := matcher(pattern, texts[j]);
      if m.None? {
        PatternHitsNoneIff(matcher, pattern, texts);
        return None;
      }
      hits := hits + MatchLiterals(texts[j], m.value);
      j := j + 1;
    }
    assert texts[..j] == texts;
    r := Some(hits);
  }
}
