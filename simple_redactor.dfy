/**
 * The simpler redactor: entities are detected page by page (no chunking) and
 * filtered by length; every page is then redacted for every keyword and for
 * the first match of every regular expression, each rectangle found getting
 * a redaction annotation and a black box, and the annotations are applied
 * once per page.
 */
module SimpleRedactor {
  import opened Wrappers
  import opened PyText
  import opened Engines
  import opened Pdf
  import opened LargeAnalysis

  /** `default_regex_patterns`: ID-like, SSN, credit-card-like and e-mail. */
  const DefaultPatterns: seq<string> := [
    @"\b[A-Z]{2}\d{6}\b",
    @"\b\d{3}-\d{2}-\d{4}\b",
    @"\b\d{16}\b",
    @"[a-zA-Z0-9._%+-]+@[a-zA-Z0-9.-]+\.[a-zA-Z]{2,}\b"
  ]

  /** The length filter: more than two characters once surrounding whitespace is stripped. */
  predicate Kept(e: string)
  {
    |Strip(e)| > 2
  }

  /** `[f(x) for x in xs if keep(f(x))]` */
  function FilterMap<A, B>(xs: seq<A>, f: A -> B, keep: B -> bool): seq<B>
  {
    if xs == [] then []
    else
      var y := f(xs[|xs| - 1]);
      FilterMap(xs[..|xs| - 1], f, keep) + (if keep(y) then [y] else [])
  }

  /** An element of a filter-map is the image of some element that passes the filter. */
  lemma {:induction false} FilterMapMember<A, B>(xs: seq<A>, f: A -> B, keep: B -> bool, y: B)
    ensures y in FilterMap(xs, f, keep) <==> exists k :: 0 <= k < |xs| && f(xs[k]) == y && keep(y)
  {
    if xs != [] {
      var n := |xs| - 1;
      FilterMapMember(xs[..n], f, keep, y);
      if y in FilterMap(xs[..n], f, keep) {
        var k :| 0 <= k < n && f(xs[..n][k]) == y && keep(y);
        assert xs[..n][k] == xs[k];
      }
      if exists k :: 0 <= k < |xs| && f(xs[k]) == y && keep(y) {
        var k :| 0 <= k < |xs| && f(xs[k]) == y && keep(y);
        if k < n {
          assert xs[..n][k] == xs[k];
        }
      }
    }
  }

  /** The literals of `spans` that pass the filter, in order, with repetitions. */
  function KeptLiterals(text: string, spans: seq<Span>): seq<string>
  {
    FilterMap(spans, sp => Literal(text, sp), Kept)
  }

  lemma KeptLiteralsIff(text: string, spans: seq<Span>, e: string)
    ensures e in KeptLiterals(text, spans) <==>
      exists k :: 0 <= k < |spans| && Literal(text, spans[k]) == e && Kept(e)
  {
    FilterMapMember(spans, sp => Literal(text, sp), Kept, e);
  }

  /**
   * `extract_entities_from_analysis`: the literal of every result whose
   * stripped text is longer than two characters, without duplicates; every
   * literal kept is itself at least three characters long.
   */
  method ExtractEntities(spans: seq<Span>, text: string) returns (entities: seq<string>)
    ensures forall e :: e in entities <==>
      exists k :: 0 <= k < |spans| && Literal(text, spans[k]) == e && Kept(e)
    ensures forall i, j :: 0 <= i < j < |entities| ==> entities[i] != entities[j]
    ensures forall e :: e in entities ==> |e| > 2
  {
    var kept: seq<string> := [];
    var i := 0;
    while i < |spans|
      invariant i <= |spans|
      invariant kept == KeptLiterals(text, spans[..i])
    {
      assert spans[..i + 1][..i] == spans[..i];
      var e := Literal(text, spans[i]);
      if |Strip(e)| > 2 {
        kept := kept + [e];
      }
      i := i + 1;
    }
    assert spans[..i] == spans;
    entities := ListOf(ToSet(kept));
    forall e ensures e in entities <==> exists k :: 0 <= k < |spans| && Literal(text, spans[k]) == e && Kept(e) {
      KeptLiteralsIff(text, spans, e);
    }
  }

  /** The entities of one page, or None when the analyzer raises on it. */
  function PageEntities(analyze: Recognizer, text: string): Option<set<string>>
  {
    var spans := analyze(text);
    if spans.Some? then Some(ToSet(KeptLiterals(text, spans.value))) else None
  }

  /** The union of the entities of every page, or None when the analyzer raises on one. */
  function Detected(analyze: Recognizer, texts: seq<string>): Option<set<string>>
  {
    UnionOfMap(texts, t => PageEntities(analyze, t))
  }

  /** Detection fails exactly when the analyzer raises on some page. */
  lemma DetectedNoneIff(analyze: Recognizer, texts: seq<string>)
    ensures Detected(analyze, texts).None? <==> exists p :: 0 <= p < |texts| && analyze(texts[p]).None?
  {
    UnionOfMapNoneIff(texts, t => PageEntities(analyze, t));
  }

  /**
   * Otherwise an entity is detected exactly when some page's analysis
   * reports it and it passes the length filter.
   */
  lemma DetectedIff(analyze: Recognizer, texts: seq<string>, e: string)
    requires Detected(analyze, texts).Some?
    ensures forall p :: 0 <= p < |texts| ==> analyze(texts[p]).Some?
    ensures e in Detected(analyze, texts).value <==>
      exists p, k :: 0 <= p < |texts| && 0 <= k < |analyze(texts[p]).value|
        && Literal(texts[p], analyze(texts[p]).value[k]) == e && Kept(e)
  {
    DetectedAnalyzed(analyze, texts);
    if e in Detected(analyze, texts).value {
      DetectedFrom(analyze, texts, e);
    }
    if exists p, k :: 0 <= p < |texts| && 0 <= k < |analyze(texts[p]).value|
        && Literal(texts[p], analyze(texts[p]).value[k]) == e && Kept(e) {
      var p, k :| 0 <= p < |texts| && 0 <= k < |analyze(texts[p]).value|
        && Literal(texts[p], analyze(texts[p]).value[k]) == e && Kept(e);
      DetectedOf(analyze, texts, e, p, k);
    }
  }

  lemma DetectedAnalyzed(analyze: Recognizer, texts: seq<string>)
    requires Detected(analyze, texts).Some?
    ensures forall p :: 0 <= p < |texts| ==> analyze(texts[p]).Some?
  {
    DetectedNoneIff(analyze, texts);
  }

  lemma DetectedFrom(analyze: Recognizer, texts: seq<string>, e: string)
    requires Detected(analyze, texts).Some? && e in Detected(analyze, texts).value
    ensures exists p, k ::
      && 0 <= p < |texts| && analyze(texts[p]).Some? && 0 <= k < |analyze(texts[p]).value|
      && Literal(texts[p], analyze(texts[p]).value[k]) == e && Kept(e)
  {
    UnionOfMapMember(texts, t => PageEntities(analyze, t), e);
    var p :| 0 <= p < |texts| && e in PageEntities(analyze, texts[p]).value;
    PageEntitiesIff(analyze, texts[p], e);
  }

  lemma DetectedOf(analyze: Recognizer, texts: seq<string>, e: string, p: nat, k: nat)
    requires Detected(analyze, texts).Some?
    requires p < |texts| && analyze(texts[p]).Some? && k < |analyze(texts[p]).value|
    requires Literal(texts[p], analyze(texts[p]).value[k]) == e && Kept(e)
    ensures e in Detected(analyze, texts).value
  {
    UnionOfMapMember(texts, t => PageEntities(analyze, t), e);
    PageEntitiesIff(analyze, texts[p], e);
  }

  /** The entities of one page are the literals of its results that pass the filter. */
  lemma PageEntitiesIff(analyze: Recognizer, text: string, e: string)
    requires analyze(text).Some?
    ensures PageEntities(analyze, text).Some?
    ensures e in PageEntities(analyze, text).value <==>
      exists k :: 0 <= k < |analyze(text).value| && Literal(text, analyze(text).value[k]) == e && Kept(e)
  {
    KeptLiteralsIff(text, analyze(text).value, e);
  }

  /** The first pass: `detected_entities.update(page_entities)` for every page in order. */
  method DetectEntities(analyze: Recognizer, texts: seq<string>) returns (r: Option<set<string>>)
    ensures r == Detected(analyze, texts)
  {
    var detected: set<string> := {};
    var p := 0;
    while p < |texts|
      invariant p <= |texts|
      invariant Detected(analyze, texts[..p]) == Some(detected)
    {
      assert texts[..p + 1] == texts[..p] + [texts[p]];
      UnionOfMapSnoc(texts[..p], t => PageEntities(analyze, t), texts[p]);
      var results := analyze(texts[p]);
      if results.None? {
        DetectedNoneIff(analyze, texts);
        return None;
      }
      var found := ExtractEntities(results.value, texts[p]);
      assert ToSet(found) == ToSet(KeptLiterals(texts[p], results.value)) by {
        forall e ensures e in found <==> e in KeptLiterals(texts[p], results.value) {
          KeptLiteralsIff(texts[p], results.value, e);
        }
      }
      detected := detected + ToSet(found);
      p := p + 1;
    }
    assert texts[..p] == texts;
    r := Some(detected);
  }

  /**
   * `[re.findall(pattern, text)[0] for pattern in patterns if re.findall(pattern, text)]`:
   * the first match of every pattern that matches, in pattern order; None
   * when a pattern raises.
   */
  function FirstMatches(matcher: Matcher, patterns: seq<string>, text: string): (r: Option<seq<string>>)
    ensures r.Some? ==> |r.value| <= |patterns|
  {
    if patterns == [] then Some([])
    else
      var init := FirstMatches(matcher, patterns[..|patterns| - 1], text);
      var found := matcher(patterns[|patterns| - 1], text);
      if init.None? || found.None? then None
      else if found.value == [] then init
      else Some(init.value + [Literal(text, found.value[0])])
  }

  /** The first matches fail exactly when some pattern raises on the text. */
  lemma {:induction false} FirstMatchesNoneIff(matcher: Matcher, patterns: seq<string>, text: string)
    ensures FirstMatches(matcher, patterns, text).None? <==>
      exists i :: 0 <= i < |patterns| && matcher(patterns[i], text).None?
  {
    if patterns != [] {
      var n := |patterns| - 1;
      FirstMatchesNoneIff(matcher, patterns[..n], text);
      if FirstMatches(matcher, patterns[..n], text).None? {
        var i :| 0 <= i < n && matcher(patterns[..n][i], text).None?;
        assert patterns[..n][i] == patterns[i];
      }
      if exists i :: 0 <= i < |patterns| && matcher(patterns[i], text).None? {
        var i :| 0 <= i < |patterns| && matcher(patterns[i], text).None?;
        if i < n {
          assert patterns[..n][i] == patterns[i];
        }
      }
    }
  }

  /**
   * Otherwise a string is among them exactly when it is the first match of
   * a pattern with at least one match; patterns without a match add nothing.
   */
  lemma {:induction false} FirstMatchesIff(matcher: Matcher, patterns: seq<string>, text: string, x: string)
    requires FirstMatches(matcher, patterns, text).Some?
    ensures forall i :: 0 <= i < |patterns| ==> matcher(patterns[i], text).Some?
    ensures x in FirstMatches(matcher, patterns, text).value <==>
      exists i :: 0 <= i < |patterns| && matcher(patterns[i], text).value != []
        && x == Literal(text, matcher(patterns[i], text).value[0])
  {
    if patterns != [] {
      var n := |patterns| - 1;
      FirstMatchesIff(matcher, patterns[..n], text, x);
      assert forall i :: 0 <= i < n ==> patterns[..n][i] == patterns[i];
    }
  }

  /** `redact_targets` of one page: every keyword, then the first matches. */
  function PageTargets(matcher: Matcher, keywords: seq<string>, patterns: seq<string>, text: string): (r: Option<seq<string>>)
    ensures r.Some? ==> |keywords| <= |r.value| <= |keywords| + |patterns| && r.value[..|keywords|] == keywords
  {
    var firsts := FirstMatches(matcher, patterns, text);
    if firsts.Some? then Some(keywords + firsts.value) else None
  }

  /** `add_redact_annot(rect)` then `draw_rect(rect)` for each rectangle. */
  function AnnotDraws(page: nat, rects: seq<Rect>): (r: seq<Op>)
    ensures |r| == 2 * |rects|
  {
    if rects == [] then []
    else
      var rect := rects[|rects| - 1];
      AnnotDraws(page, rects[..|rects| - 1]) + [Annot(Mark(page, rect)), Draw(Mark(page, rect))]
  }

  /** Each rectangle is annotated, and the annotation is immediately followed by its black box. */
  lemma {:induction false} AnnotDrawsAt(page: nat, rects: seq<Rect>, k: nat)
    requires k < |rects|
    ensures AnnotDraws(page, rects)[2 * k] == Annot(Mark(page, rects[k]))
    ensures AnnotDraws(page, rects)[2 * k + 1] == Draw(Mark(page, rects[k]))
  {
    var n := |rects| - 1;
    if k < n {
      AnnotDrawsAt(page, rects[..n], k);
    }
  }

  /**
   * The calls for one target: every rectangle found is annotated and boxed;
   * none when its search raises (`except Exception` around each target).
   */
  function TargetCalls(search: Search, page: nat, target: string): seq<Op>
  {
    if search(page, target).Some? then AnnotDraws(page, search(page, target).value) else []
  }

  /** The calls for the targets of one page, in order. */
  function TargetOps(search: Search, page: nat, targets: seq<string>): seq<Op>
  {
    if targets == [] then []
    else TargetOps(search, page, targets[..|targets| - 1]) + TargetCalls(search, page, targets[|targets| - 1])
  }

  /** The calls redacting one page: its targets, then `apply_redactions` once. */
  function PageOps(search: Search, page: nat, targets: seq<string>): (r: seq<Op>)
    ensures r != [] && r[|r| - 1] == Apply(page)
  {
    TargetOps(search, page, targets) + [Apply(page)]
  }

  lemma AnnotDrawsMember(page: nat, rects: seq<Rect>, x: Op)
    ensures x in AnnotDraws(page, rects) <==>
      (x.Annot? || x.Draw?) && x.mark.page == page && x.mark.rect in rects
  {
    var r := AnnotDraws(page, rects);
    if x in r {
      var i :| 0 <= i < |r| && r[i] == x;
      AnnotDrawsAt(page, rects, i / 2);
    }
    if (x.Annot? || x.Draw?) && x.mark.page == page && x.mark.rect in rects {
      var k :| 0 <= k < |rects| && rects[k] == x.mark.rect;
      AnnotDrawsAt(page, rects, k);
    }
  }

  /**
   * The targets fail independently: a rectangle is annotated (and boxed) on
   * the page exactly when the search for some target succeeded and returned
   * it, whatever the searches for the other targets did; no call but those
   * two is made for a target.
   */
  lemma {:induction false} TargetOpsMember(search: Search, page: nat, targets: seq<string>, x: Op)
    ensures x in TargetOps(search, page, targets) <==>
      && (x.Annot? || x.Draw?) && x.mark.page == page
      && exists t :: t in targets && search(page, t).Some? && x.mark.rect in search(page, t).value
  {
    if targets != [] {
      var n := |targets| - 1;
      TargetOpsMember(search, page, targets[..n], x);
      var found := search(page, targets[n]);
      if found.Some? {
        AnnotDrawsMember(page, found.value, x);
      }
      assert TargetOps(search, page, targets) == TargetOps(search, page, targets[..n]) + TargetCalls(search, page, targets[n]);
      assert forall t :: t in targets <==> t in targets[..n] || t == targets[n] by {
        assert targets == targets[..n] + [targets[n]];
      }
    }
  }

  /** `apply_redactions` runs once per page, after all of the page's annotations. */
  lemma ApplyOnceLast(search: Search, page: nat, targets: seq<string>)
    ensures var r := PageOps(search, page, targets);
      forall k :: 0 <= k < |r| - 1 ==> !r[k].Apply?
  {
    var r := PageOps(search, page, targets);
    forall k | 0 <= k < |r| - 1 ensures !r[k].Apply? {
      assert r[k] in TargetOps(search, page, targets);
      TargetOpsMember(search, page, targets, r[k]);
    }
  }

  /** The body of the `try` for one target. */
  method RedactTarget(doc: Document, p: nat, target: string)
    requires p < |doc.texts|
    modifies doc
    ensures doc.ops == old(doc.ops) + TargetCalls(doc.search, p, target)
    ensures doc.saved == old(doc.saved) && doc.closed == old(doc.closed)
  {
    var found := doc.search(p, target);
    if found.Some? {
      var rects := found.value;
      var r := 0;
      while r < |rects|
        invariant r <= |rects|
        invariant doc.ops == old(doc.ops) + AnnotDraws(p, rects[..r])
        invariant doc.saved == old(doc.saved) && doc.closed == old(doc.closed)
      {
        assert rects[..r + 1][..r] == rects[..r];
        doc.AddRedactAnnot(p, rects[r]);
        doc.DrawRect(p, rects[r]);
        r := r + 1;
      }
      assert rects[..r] == rects;
    }
  }

  lemma TargetOpsSnoc(search: Search, page: nat, targets: seq<string>, t: nat)
    requires t < |targets|
    ensures TargetOps(search, page, targets[..t + 1]) == TargetOps(search, page, targets[..t]) + TargetCalls(search, page, targets[t])
  {
    assert targets[..t + 1][..t] == targets[..t];
  }

  /** The `for target in redact_targets` loop and the `apply_redactions` after it. */
  method RedactPage(doc: Document, p: nat, targets: seq<string>)
    requires p < |doc.texts|
    modifies doc
    ensures doc.ops == old(doc.ops) + PageOps(doc.search, p, targets)
    ensures doc.saved == old(doc.saved) && doc.closed == old(doc.closed)
  {
    var t := 0;
    while t < |targets|
      invariant t <= |targets|
      invariant doc.ops == old(doc.ops) + TargetOps(doc.search, p, targets[..t])
      invariant doc.saved == old(doc.saved) && doc.closed == old(doc.closed)
    {
      TargetOpsSnoc(doc.search, p, targets, t);
      AppendAssoc(old(doc.ops), TargetOps(doc.search, p, targets[..t]), TargetCalls(doc.search, p, targets[t]));
      RedactTarget(doc, p, targets[t]);
      t := t + 1;
    }
    assert targets[..t] == targets;
    AppendAssoc(old(doc.ops), TargetOps(doc.search, p, targets), [Apply(p)]);
    doc.ApplyRedactions(p);
  }

  /** The targets of every page, or None when a pattern raises on one. */
  function PagesTargets(matcher: Matcher, keywords: seq<string>, patterns: seq<string>, texts: seq<string>)
    : (r: Option<seq<seq<string>>>)
    ensures r.Some? ==> |r.value| == |texts|
  {
    if texts == [] then Some([])
    else
      var init := PagesTargets(matcher, keywords, patterns, texts[..|texts| - 1]);
      var last := PageTargets(matcher, keywords, patterns, texts[|texts| - 1]);
      if init.Some? && last.Some? then Some(init.value + [last.value]) else None
  }

  /** Redaction fails exactly when some pattern raises on some page. */
  lemma {:induction false} PagesTargetsNoneIff(matcher: Matcher, keywords: seq<string>,
                                               patterns: seq<string>, texts: seq<string>)
    ensures PagesTargets(matcher, keywords, patterns, texts).None? <==>
      exists i, p :: 0 <= i < |patterns| && 0 <= p < |texts| && matcher(patterns[i], texts[p]).None?
  {
    if texts != [] {
      var n := |texts| - 1;
      PagesTargetsNoneIff(matcher, keywords, patterns, texts[..n]);
      FirstMatchesNoneIff(matcher, patterns, texts[n]);
      if PagesTargets(matcher, keywords, patterns, texts[..n]).None? {
        var i, p :| 0 <= i < |patterns| && 0 <= p < n && matcher(patterns[i], texts[..n][p]).None?;
        assert texts[..n][p] == texts[p];
      }
      if exists i, p :: 0 <= i < |patterns| && 0 <= p < |texts| && matcher(patterns[i], texts[p]).None? {
        var i, p :| 0 <= i < |patterns| && 0 <= p < |texts| && matcher(patterns[i], texts[p]).None?;
        if p < n {
          assert texts[..n][p] == texts[p];
        }
      }
    }
  }

  /** Otherwise the targets of page `p` are the keywords and the first matches on its text. */
  lemma {:induction false} PagesTargetsAt(matcher: Matcher, keywords: seq<string>,
                                          patterns: seq<string>, texts: seq<string>, p: nat)
    requires PagesTargets(matcher, keywords, patterns, texts).Some? && p < |texts|
    ensures PageTargets(matcher, keywords, patterns, texts[p]).Some?
    ensures PagesTargets(matcher, keywords, patterns, texts).value[p]
         == PageTargets(matcher, keywords, patterns, texts[p]).value
  {
    var n := |texts| - 1;
    if p < n {
      PagesTargetsAt(matcher, keywords, patterns, texts[..n], p);
      assert texts[..n][p] == texts[p];
    }
  }

  /** The calls for each page in order, page `p` with the targets `ts[p]`. */
  function PagePlans(search: Search, ts: seq<seq<string>>): (r: seq<seq<Op>>)
    ensures |r| == |ts|
  {
    if ts == [] then [] else PagePlans(search, ts[..|ts| - 1]) + [PageOps(search, |ts| - 1, ts[|ts| - 1])]
  }

  lemma {:induction false} PagePlansAt(search: Search, ts: seq<seq<string>>, p: nat)
    requires p < |ts|
    ensures PagePlans(search, ts)[p] == PageOps(search, p, ts[p])
  {
    var n := |ts| - 1;
    if p < n {
      PagePlansAt(search, ts[..n], p);
      assert ts[..n][p] == ts[p];
    }
  }

  /** The calls redacting the pages in order. */
  function OpsOf(search: Search, ts: seq<seq<string>>): seq<Op>
  {
    Concat(PagePlans(search, ts))
  }

  /** A call is made exactly when it is one of the calls redacting some page. */
  lemma OpsOfMember(search: Search, ts: seq<seq<string>>, x: Op)
    ensures x in OpsOf(search, ts) <==> exists p :: 0 <= p < |ts| && x in PageOps(search, p, ts[p])
  {
    var plans := PagePlans(search, ts);
    ConcatMember(plans, x);
    if x in OpsOf(search, ts) {
      var p :| 0 <= p < |plans| && x in plans[p];
      PagePlansAt(search, ts, p);
    }
    if exists p :: 0 <= p < |ts| && x in PageOps(search, p, ts[p]) {
      var p :| 0 <= p < |ts| && x in PageOps(search, p, ts[p]);
      PagePlansAt(search, ts, p);
    }
  }

  /** One more page redacted appends that page's calls. */
  lemma OpsOfSnoc(search: Search, ts: seq<seq<string>>, t: seq<string>)
    ensures OpsOf(search, ts + [t]) == OpsOf(search, ts) + PageOps(search, |ts|, t)
  {
    assert (ts + [t])[..|ts|] == ts;
  }

  lemma PagesTargetsSnoc(matcher: Matcher, keywords: seq<string>, patterns: seq<string>,
                         texts: seq<string>, p: nat, ts: seq<seq<string>>)
    requires p < |texts| && PagesTargets(matcher, keywords, patterns, texts[..p]) == Some(ts)
    requires PageTargets(matcher, keywords, patterns, texts[p]).Some?
    ensures PagesTargets(matcher, keywords, patterns, texts[..p + 1])
         == Some(ts + [PageTargets(matcher, keywords, patterns, texts[p]).value])
  {
    assert texts[..p + 1][..p] == texts[..p];
  }

  /** The second pass over the pages. */
  method RedactPages(doc: Document, matcher: Matcher, keywords: seq<string>, patterns: seq<string>)
    returns (ok: bool)
    modifies doc
    ensures ok <==> PagesTargets(matcher, keywords, patterns, doc.texts).Some?
    ensures ok ==> doc.ops == old(doc.ops) + OpsOf(doc.search, PagesTargets(matcher, keywords, patterns, doc.texts).value)
    ensures doc.saved == old(doc.saved) && doc.closed == old(doc.closed)
  {
    var texts := doc.texts;
    ghost var ts: seq<seq<string>> := [];
    var p := 0;
    while p < |texts|
      invariant p <= |texts|
      invariant PagesTargets(matcher, keywords, patterns, texts[..p]) == Some(ts)
      invariant doc.ops == old(doc.ops) + OpsOf(doc.search, ts)
      invariant doc.saved == old(doc.saved) && doc.closed == old(doc.closed)
    {
      var targets := PageTargets(matcher, keywords, patterns, texts[p]);
      if targets.None? {
        FirstMatchesNoneIff(matcher, patterns, texts[p]);
        var i :| 0 <= i < |patterns| && matcher(patterns[i], texts[p]).None?;
        PagesTargetsNoneIff(matcher, keywords, patterns, texts);
        return false;
      }
      PagesTargetsSnoc(matcher, keywords, patterns, texts, p, ts);
      OpsOfSnoc(doc.search, ts, targets.value);
      AppendAssoc(old(doc.ops), OpsOf(doc.search, ts), PageOps(doc.search, p, targets.value));
      RedactPage(doc, p, targets.value);
      ts := ts + [targets.value];
      p := p + 1;
    }
    assert texts[..p] == texts;
    ok := true;
  }

  /** The dictionary returned on success. */
  datatype Summary = Summary(detectedEntities: seq<string>, outputPath: string)

  /** Why a run raises. */
  datatype RedactError =
    | AnalyzerError  // the analyzer raised on a page
    | PatternError   // a regular expression raised on a page

  /**
   * `redact_pdf(pdf_path, output_path, language, additional_keywords, custom_regex, entities)`
   * on a document whose pages show `texts`. The keywords are the detected
   * entities followed by `additional`, the patterns the defaults followed by
   * `custom`; only the detected entities are reported.
   */
  method RedactPdf(texts: seq<string>, search: Search, outputPath: string, analyze: Recognizer,
                   additional: seq<string>, matcher: Matcher, custom: seq<string>)
    returns (doc: Document, r: Result<Summary, RedactError>)
    ensures fresh(doc) && doc.texts == texts && doc.search == search
    ensures r == Failure(AnalyzerError) <==> exists p :: 0 <= p < |texts| && analyze(texts[p]).None?
    ensures r == Failure(PatternError) <==>
      && (forall p :: 0 <= p < |texts| ==> analyze(texts[p]).Some?)
      && exists i, p :: 0 <= i < |DefaultPatterns + custom| && 0 <= p < |texts|
           && matcher((DefaultPatterns + custom)[i], texts[p]).None?
    ensures r.Success? ==>
      && Detected(analyze, texts).Some?
      && ToSet(r.value.detectedEntities) == Detected(analyze, texts).value
      && (forall i, j :: 0 <= i < j < |r.value.detectedEntities| ==> r.value.detectedEntities[i] != r.value.detectedEntities[j])
      && r.value.outputPath == outputPath
      && PagesTargets(matcher, r.value.detectedEntities + additional, DefaultPatterns + custom, texts).Some?
      && doc.ops == OpsOf(search, PagesTargets(matcher, r.value.detectedEntities + additional, DefaultPatterns + custom, texts).value)
      && doc.saved == Some(outputPath) && doc.closed
    ensures r.Failure? ==> doc.saved == None && !doc.closed
  {
    doc := new Document(texts, search);
    DetectedNoneIff(analyze, texts);
    var detected := DetectEntities(analyze, texts);
    if detected.None? {
      return doc, Failure(AnalyzerError);
    }
    var list := ListOf(detected.value);
    var keywords := list + additional;
    var patterns := DefaultPatterns + custom;
    PagesTargetsNoneIff(matcher, keywords, patterns, texts);
    var ok := RedactPages(doc, matcher, keywords, patterns);
    if !ok {
      return doc, Failure(PatternError);
    }
    doc.Save(outputPath);
    doc.Close();
    r := Success(Summary(list, outputPath));
  }
}
