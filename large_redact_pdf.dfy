/**
 * `redact_pdf` of the large-document redactor: detection over chunks, the
 * union with the caller's keywords and custom expressions, the per-page
 * search for every literal, and the painting of every page the workers
 * report on; then the document is saved and closed.
 */
module LargeRedactPdf {
  import opened Wrappers
  import opened PyText
  import opened Engines
  import opened Chunking
  import opened ChunkProperties
  import opened Pdf
  import opened LargeAnalysis
  import opened LargeRedactor

  /** The dictionary returned on success (the file size is not modelled). */
  datatype Summary = Summary(pagesProcessed: nat, entitiesDetected: seq<string>, outputPath: string)

  /** Why a run re-raises. */
  datatype RedactError =
    | PatternError   // a custom expression does not compile
    | SearchError    // `page.search_for` raised while painting
    | ChunkingError  // the final chunk's context raises while the document is analysed

  /**
   * The literals to redact: the detected entities, the extra keywords and
   * every match of every custom expression on every page; None when one of
   * the expressions raises.
   */
  function Entities(texts: seq<string>, cfg: Config, analyze: Recognizer, additional: seq<string>,
                    matcher: Matcher, patterns: seq<string>): (r: Option<set<string>>)
    requires ValidConfig(cfg)
    ensures r.None? <==> RegexHits(matcher, patterns, texts).None?
    ensures r.Some? ==> forall e :: e in r.value <==>
      || e in Detected(analyze, Chunks(texts, cfg))
      || e in additional
      || e in RegexHits(matcher, patterns, texts).value
  {
    match RegexHits(matcher, patterns, texts)
    case None => None
    case Some(hits) => Some(Detected(analyze, Chunks(texts, cfg)) + ToSet(additional) + hits)
  }

  /**
   * The literals to redact with the chunker as written: the analysis raises
   * first when the final chunk's context fails, and a failing expression
   * raises after it; otherwise the literals are those of `Entities`.
   */
  function EntitiesAsWritten(texts: seq<string>, cfg: Config, analyze: Recognizer, additional: seq<string>,
                             matcher: Matcher, patterns: seq<string>): (r: Result<set<string>, RedactError>)
    requires ValidConfig(cfg)
    ensures r == Failure(ChunkingError) <==> ChunksAsWritten(texts, cfg).Failure?
    ensures r == Failure(PatternError) <==>
      ChunksAsWritten(texts, cfg).Success? && RegexHits(matcher, patterns, texts).None?
    ensures r.Success? ==> Entities(texts, cfg, analyze, additional, matcher, patterns) == Some(r.value)
  {
    match ChunksAsWritten(texts, cfg)
    case Failure(_) => Failure(ChunkingError)
    case Success(chunks) =>
      match RegexHits(matcher, patterns, texts)
      case None => Failure(PatternError)
      case Some(hits) => Success(Detected(analyze, chunks) + ToSet(additional) + hits)
  }

  /**
   * As written, every run over two or more pages with some text re-raises the
   * chunker's failure, whatever the analyzer, keywords and expressions.
   */
  lemma AsWrittenRunRaises(texts: seq<string>, cfg: Config, analyze: Recognizer, additional: seq<string>,
                           matcher: Matcher, patterns: seq<string>)
    requires ValidConfig(cfg) && cfg.overlap > 0 && cfg.contextWindow >= 2
    requires |texts| >= 2 && Concat(texts) != ""
    ensures EntitiesAsWritten(texts, cfg, analyze, additional, matcher, patterns) == Failure(ChunkingError)
  {
    AsWrittenFailsOnMultiPage(texts, cfg);
  }

  /** Every search the workers' results lead to succeeds. */
  ghost predicate Searchable(search: Search, texts: seq<string>, entities: set<string>)
  {
    forall p, e :: 0 <= p < |texts| && e in entities && Occurrences(e, texts[p]) != [] ==> search(p, e).Some?
  }

  /** What the worker for each page returns. */
  function Results(texts: seq<string>, entities: seq<string>): (r: seq<PageResult>)
    ensures |r| == |texts|
  {
    seq(|texts|, p requires 0 <= p < |texts| => ProcessPage(p, texts[p], entities))
  }

  lemma ResultsAt(texts: seq<string>, entities: seq<string>, p: nat)
    requires p < |texts|
    ensures Results(texts, entities)[p] == PageResult(p, EntityMatches(entities, texts[p]))
  {
  }

  /** The painting calls when the results are taken in page order. */
  function Painting(search: Search, texts: seq<string>, entities: seq<string>): seq<Op>
  {
    InOrder(Plans(search, texts, Results(texts, entities)), Range(|texts|))
  }

  /** All pages are painted without error exactly when every search for an occurring literal succeeds. */
  lemma AllPagesSucceedIff(search: Search, texts: seq<string>, entities: seq<string>)
    ensures (forall p :: 0 <= p < |texts| ==>
              PageDraws(search, p, texts[p], Results(texts, entities)[p].matches).Some?)
      <==> Searchable(search, texts, ToSet(entities))
  {
    if forall p :: 0 <= p < |texts| ==> PageDraws(search, p, texts[p], Results(texts, entities)[p].matches).Some? {
      forall p, e | 0 <= p < |texts| && e in ToSet(entities) && Occurrences(e, texts[p]) != []
        ensures search(p, e).Some?
      {
        ResultsAt(texts, entities, p);
        PageSucceedsIff(search, p, texts[p], entities);
      }
    }
    if Searchable(search, texts, ToSet(entities)) {
      forall p | 0 <= p < |texts|
        ensures PageDraws(search, p, texts[p], Results(texts, entities)[p].matches).Some?
      {
        ResultsAt(texts, entities, p);
        PageSucceedsIff(search, p, texts[p], entities);
      }
    }
  }

  /** The calls planned for page `p` are those painting its matches. */
  lemma PlanAt(search: Search, texts: seq<string>, entities: seq<string>, p: nat)
    requires p < |texts|
    requires PageDraws(search, p, texts[p], EntityMatches(entities, texts[p])).Some?
    ensures PlanOf(Plans(search, texts, Results(texts, entities)), p)
         == PageDraws(search, p, texts[p], EntityMatches(entities, texts[p])).value
  {
    var results := Results(texts, entities);
    ResultsAt(texts, entities, p);
    PlansUpToAt(search, texts, results, |results|, p);
  }

  /** A literal a page reports is one of the entities and occurs in the page. */
  lemma MatchedLiteral(entities: seq<string>, text: string, k: nat)
    requires k < |EntityMatches(entities, text)|
    ensures var e := Literal(text, EntityMatches(entities, text)[k]);
      e in entities && Occurrences(e, text) != []
  {
    var sp := EntityMatches(entities, text)[k];
    var e := Literal(text, sp);
    assert OccursAt(e, text, sp.start);
    OccurrencesEmptyIff(e, text);
  }

  /**
   * When every search succeeds, the page-order painting draws a rectangle on
   * page `p` exactly when the search for some entity occurring in the text
   * of page `p` returned it, and it makes no call but `draw_rect`.
   */
  lemma PaintedWhereFound(search: Search, texts: seq<string>, entities: seq<string>, x: Op)
    requires Searchable(search, texts, ToSet(entities))
    ensures x in Painting(search, texts, entities) <==>
      && x.Draw? && x.mark.page < |texts|
      && exists e :: e in entities && Occurrences(e, texts[x.mark.page]) != []
           && search(x.mark.page, e).Some? && x.mark.rect in search(x.mark.page, e).value
  {
    var n := |texts|;
    var plans := Plans(search, texts, Results(texts, entities));
    InOrderMember(plans, Range(n), x);
    AllPagesSucceedIff(search, texts, entities);
    if x in Painting(search, texts, entities) {
      var q :| 0 <= q < n && x in PlanOf(plans, Range(n)[q]);
      var ms := EntityMatches(entities, texts[q]);
      ResultsAt(texts, entities, q);
      PlanAt(search, texts, entities, q);
      PageDrawsMember(search, q, texts[q], ms, x);
      var k :| 0 <= k < |ms| && search(q, Literal(texts[q], ms[k])).Some?
        && x.mark.rect in search(q, Literal(texts[q], ms[k])).value;
      MatchedLiteral(entities, texts[q], k);
    }
    if && x.Draw? && x.mark.page < n
       && exists e :: e in entities && Occurrences(e, texts[x.mark.page]) != []
            && search(x.mark.page, e).Some? && x.mark.rect in search(x.mark.page, e).value
    {
      var p := x.mark.page;
      var e :| e in entities && Occurrences(e, texts[p]) != []
        && search(p, e).Some? && x.mark.rect in search(p, e).value;
      var ms := EntityMatches(entities, texts[p]);
      var k := OccurringMatch(entities, texts[p], e);
      ResultsAt(texts, entities, p);
      PlanAt(search, texts, entities, p);
      PageDrawsMember(search, p, texts[p], ms, x);
      assert Range(n)[p] == p;
    }
  }

  /**
   * `redact_pdf(pdf_path, output_path, language, additional_keywords, custom_regex)`
   * on a document whose pages show `texts`. On success the painting is, up
   * to the order in which the workers complete, the page-order painting for
   * the reported literals, and the document is saved and closed; when an
   * exception is re-raised nothing is saved and the document stays open.
   */
  method RedactPdf(texts: seq<string>, search: Search, outputPath: string, cfg: Config,
                   analyze: Recognizer, additional: seq<string>, matcher: Matcher, patterns: seq<string>)
    returns (doc: Document, r: Result<Summary, RedactError>)
    requires ValidConfig(cfg)
    ensures fresh(doc) && doc.texts == texts && doc.search == search
    ensures r == Failure(PatternError) <==> Entities(texts, cfg, analyze, additional, matcher, patterns).None?
    ensures r == Failure(SearchError) <==>
      && Entities(texts, cfg, analyze, additional, matcher, patterns).Some?
      && !Searchable(search, texts, Entities(texts, cfg, analyze, additional, matcher, patterns).value)
    ensures r.Success? <==>
      && Entities(texts, cfg, analyze, additional, matcher, patterns).Some?
      && Searchable(search, texts, Entities(texts, cfg, analyze, additional, matcher, patterns).value)
    ensures r.Success? ==>
      && r.value.pagesProcessed == |texts|
      && r.value.outputPath == outputPath
      && ToSet(r.value.entitiesDetected) == Entities(texts, cfg, analyze, additional, matcher, patterns).value
      && (forall i, j :: 0 <= i < j < |r.value.entitiesDetected| ==> r.value.entitiesDetected[i] != r.value.entitiesDetected[j])
      && multiset(doc.ops) == multiset(Painting(search, texts, r.value.entitiesDetected))
      && doc.saved == Some(outputPath) && doc.closed
    ensures r.Failure? ==> doc.saved == None && !doc.closed
  {
    doc := new Document(texts, search);
    var detected := AnalyzeDocument(texts, cfg, analyze);
    var all := ToSet(detected) + ToSet(additional);
    var hits := CollectRegexMatches(matcher, patterns, texts);
    if hits.None? {
      return doc, Failure(PatternError);
    }
    all := all + hits.value;
    assert all == Entities(texts, cfg, analyze, additional, matcher, patterns).value;
    var list := ListOf(all);
    assert ToSet(list) == all;
    var results := Results(texts, list);
    forall p | 0 <= p < |results| ensures results[p].pageNum == p {
      ResultsAt(texts, list, p);
    }
    var ok, order := ApplyResults(doc, results);
    AllPagesSucceedIff(search, texts, list);
    if !ok {
      return doc, Failure(SearchError);
    }
    InOrderPermutation(Plans(search, texts, results), order, Range(|texts|));
    doc.Save(outputPath);
    doc.Close();
    r := Success(Summary(doc.PageCount(), list, outputPath));
  }
}
