/**
 * Redaction by the large-document redactor: every page is searched for every
 * entity literal (`process_page`), and the results, taken in the order the
 * workers complete, are painted over with black rectangles on their page.
 */
module LargeRedactor {
  import opened Wrappers
  import opened PyText
  import opened Engines
  import opened Chunking
  import opened Pdf
  import opened LargeAnalysis

  /** The dictionary `process_page` returns. */
  datatype PageResult = PageResult(pageNum: nat, matches: seq<Span>)

  /**
   * For each entity in list order, every non-overlapping occurrence from left
   * to right: each pair lies inside the text and spells one of the entities.
   */
  function EntityMatches(entities: seq<string>, text: string): (r: seq<Span>)
    ensures forall k :: 0 <= k < |r| ==>
      && r[k].start <= r[k].end <= |text|
      && text[r[k].start..r[k].end] in entities
  {
    if entities == [] then []
    else EntityMatches(entities[..|entities| - 1], text) + Occurrences(entities[|entities| - 1], text)
  }

  /** `process_page((page_num, text, entities))`; its `except` branch cannot be reached here. */
  function ProcessPage(pageNum: nat, text: string, entities: seq<string>): (r: PageResult)
    ensures r.pageNum == pageNum
    ensures forall k :: 0 <= k < |r.matches| ==> Literal(text, r.matches[k]) in entities
  {
    PageResult(pageNum, EntityMatches(entities, text))
  }

  /** Every reported occurrence of an entity is one of `EntityMatches`. */
  lemma {:induction false} OccurrenceReported(entities: seq<string>, text: string, e: string, sp: Span)
    requires e in entities && sp in Occurrences(e, text)
    ensures sp in EntityMatches(entities, text)
  {
    var n := |entities| - 1;
    if entities[n] != e {
      assert e in entities[..n];
      OccurrenceReported(entities[..n], text, e, sp);
    }
  }

  /**
   * Completeness: wherever an entity occurs, a reported pair spelling that
   * entity starts at or before the occurrence and covers its first character.
   */
  lemma EntityMatchesComplete(entities: seq<string>, text: string, e: string, j: nat) returns (k: nat)
    requires e in entities && OccursAt(e, text, j)
    ensures var r := EntityMatches(entities, text);
      && k < |r|
      && Literal(text, r[k]) == e
      && r[k].start <= j < r[k].start + MaxNat(|e|, 1)
  {
    var i := OccurrencesFromCover(e, text, 0, j);
    var sp := Occurrences(e, text)[i];
    OccurrenceReported(entities, text, e, sp);
    var r := EntityMatches(entities, text);
    k :| 0 <= k < |r| && r[k] == sp;
  }

  /** A page yields no pair exactly when none of the entities occurs in its text. */
  lemma {:induction false} NoMatchesIff(entities: seq<string>, text: string)
    ensures EntityMatches(entities, text) == [] <==>
      forall e, j: nat :: e in entities ==> !OccursAt(e, text, j)
  {
    if entities != [] {
      var n := |entities| - 1;
      NoMatchesIff(entities[..n], text);
      OccurrencesEmptyIff(entities[n], text);
      var init, last := EntityMatches(entities[..n], text), Occurrences(entities[n], text);
      assert EntityMatches(entities, text) == init + last;
      assert EntityMatches(entities, text) == [] <==> init == [] && last == [] by {
        assert |init + last| == |init| + |last|;
      }
      if EntityMatches(entities, text) == [] {
        forall e, j: nat | e in entities ensures !OccursAt(e, text, j) {
          if e != entities[n] {
            assert e in entities[..n];
          }
        }
      } else if EntityMatches(entities[..n], text) != [] {
        var e, j: nat :| e in entities[..n] && OccursAt(e, text, j);
        assert e in entities;
      }
    }
  }

  /** The `draw_rect` call for each rectangle. */
  function DrawsOf(page: nat, rects: seq<Rect>): (r: seq<Op>)
    ensures |r| == |rects| && forall k :: 0 <= k < |r| ==> r[k] == Draw(Mark(page, rects[k]))
  {
    if rects == [] then [] else DrawsOf(page, rects[..|rects| - 1]) + [Draw(Mark(page, rects[|rects| - 1]))]
  }

  /**
   * The calls painting page `page` for its matches, in order: each match's
   * text is searched and every rectangle found is painted; None when a
   * search raises.
   */
  function PageDraws(search: Search, page: nat, text: string, matches: seq<Span>): Option<seq<Op>>
  {
    if matches == [] then Some([])
    else
      match PageDraws(search, page, text, matches[..|matches| - 1])
      case None => None
      case Some(ops) =>
        match search(page, Literal(text, matches[|matches| - 1]))
        case None => None
        case Some(rects) => Some(ops + DrawsOf(page, rects))
  }

  /** A page is painted without error exactly when the search for every match succeeds. */
  lemma {:induction false} PageDrawsSomeIff(search: Search, page: nat, text: string, matches: seq<Span>)
    ensures PageDraws(search, page, text, matches).Some? <==>
      forall k :: 0 <= k < |matches| ==> search(page, Literal(text, matches[k])).Some?
  {
    if matches != [] {
      var n := |matches| - 1;
      PageDrawsSomeIff(search, page, text, matches[..n]);
      assert forall k :: 0 <= k < n ==> matches[..n][k] == matches[k];
    }
  }

  /**
   * With the matches `process_page` reports, a page is painted without error
   * exactly when the search succeeds for every entity that occurs in its text.
   */
  lemma PageSucceedsOnlyIf(search: Search, page: nat, text: string, entities: seq<string>, e: string)
    requires PageDraws(search, page, text, EntityMatches(entities, text)).Some?
    requires e in entities && Occurrences(e, text) != []
    ensures search(page, e).Some?
  {
    var ms := EntityMatches(entities, text);
    var k := OccurringMatch(entities, text, e);
    PageDrawsAt(search, page, text, ms, k);
  }

  /** An entity that occurs in the text is the literal of one of the page's matches. */
  lemma OccurringMatch(entities: seq<string>, text: string, e: string) returns (k: nat)
    requires e in entities && Occurrences(e, text) != []
    ensures k < |EntityMatches(entities, text)| && Literal(text, EntityMatches(entities, text)[k]) == e
  {
    var ms := EntityMatches(entities, text);
    var sp := Occurrences(e, text)[0];
    OccurrenceReported(entities, text, e, sp);
    k :| 0 <= k < |ms| && ms[k] == sp;
  }

  lemma PageSucceedsIf(search: Search, page: nat, text: string, entities: seq<string>)
    requires forall e :: e in entities && Occurrences(e, text) != [] ==> search(page, e).Some?
    ensures PageDraws(search, page, text, EntityMatches(entities, text)).Some?
  {
    var ms := EntityMatches(entities, text);
    forall k | 0 <= k < |ms| ensures search(page, Literal(text, ms[k])).Some? {
      var e := Literal(text, ms[k]);
      assert OccursAt(e, text, ms[k].start);
      OccurrencesEmptyIff(e, text);
    }
    PageDrawsSomeIff(search, page, text, ms);
  }

  /**
   * With the matches `process_page` reports, a page is painted without error
   * exactly when the search succeeds for every entity that occurs in its text.
   */
  lemma PageSucceedsIff(search: Search, page: nat, text: string, entities: seq<string>)
    ensures PageDraws(search, page, text, EntityMatches(entities, text)).Some? <==>
      forall e :: e in entities && Occurrences(e, text) != [] ==> search(page, e).Some?
  {
    if PageDraws(search, page, text, EntityMatches(entities, text)).Some? {
      forall e | e in entities && Occurrences(e, text) != [] ensures search(page, e).Some? {
        PageSucceedsOnlyIf(search, page, text, entities, e);
      }
    }
    if forall e :: e in entities && Occurrences(e, text) != [] ==> search(page, e).Some? {
      PageSucceedsIf(search, page, text, entities);
    }
  }

  /**
   * A painted page draws exactly the rectangles the searches for its matches
   * returned, all on that page, and makes no other call.
   */
  lemma {:induction false} PageDrawsMember(search: Search, page: nat, text: string, matches: seq<Span>, x: Op)
    requires PageDraws(search, page, text, matches).Some?
    ensures x in PageDraws(search, page, text, matches).value <==>
      && x.Draw? && x.mark.page == page
      && exists k :: 0 <= k < |matches| && search(page, Literal(text, matches[k])).Some?
           && x.mark.rect in search(page, Literal(text, matches[k])).value
  {
    if matches != [] {
      var n := |matches| - 1;
      PageDrawsMember(search, page, text, matches[..n], x);
      assert forall k :: 0 <= k < n ==> matches[..n][k] == matches[k];
    }
  }

  /** Painting a prefix of the matches makes a part of the calls painting all of them. */
  lemma {:induction false} PageDrawsPrefix(search: Search, page: nat, text: string, matches: seq<Span>, k: nat)
    requires k <= |matches| && PageDraws(search, page, text, matches).Some?
    ensures PageDraws(search, page, text, matches[..k]).Some?
    ensures multiset(PageDraws(search, page, text, matches[..k]).value)
         <= multiset(PageDraws(search, page, text, matches).value)
  {
    if k == |matches| {
      assert matches[..k] == matches;
    } else {
      var n := |matches| - 1;
      assert matches[..n][..k] == matches[..k];
      PageDrawsPrefix(search, page, text, matches[..n], k);
    }
  }

  /** The last match's rectangles are painted after those of the matches before it. */
  lemma PageDrawsLast(search: Search, page: nat, text: string, matches: seq<Span>, j: nat)
    requires j < |matches| && PageDraws(search, page, text, matches[..j + 1]).Some?
    ensures PageDraws(search, page, text, matches[..j]).Some?
    ensures search(page, Literal(text, matches[j])).Some?
    ensures PageDraws(search, page, text, matches[..j + 1]).value
         == PageDraws(search, page, text, matches[..j]).value
            + DrawsOf(page, search(page, Literal(text, matches[j])).value)
  {
    assert matches[..j + 1][..j] == matches[..j];
  }

  /** Painting one more match: its search's rectangles follow, or the page fails. */
  lemma PageDrawsStep(search: Search, page: nat, text: string, matches: seq<Span>, j: nat)
    requires j < |matches|
    ensures var before := PageDraws(search, page, text, matches[..j]);
      var found := search(page, Literal(text, matches[j]));
      PageDraws(search, page, text, matches[..j + 1])
        == if before.None? || found.None? then None else Some(before.value + DrawsOf(page, found.value))
  {
    assert matches[..j + 1][..j] == matches[..j];
  }

  /** On a painted page, the search for every match succeeded. */
  lemma PageDrawsAt(search: Search, page: nat, text: string, matches: seq<Span>, j: nat)
    requires j < |matches| && PageDraws(search, page, text, matches).Some?
    ensures search(page, Literal(text, matches[j])).Some?
  {
    PageDrawsSomeIff(search, page, text, matches);
  }

  /** One failing search fails the whole page. */
  lemma PageDrawsFails(search: Search, page: nat, text: string, matches: seq<Span>, j: nat)
    requires j < |matches| && search(page, Literal(text, matches[j])).None?
    ensures PageDraws(search, page, text, matches).None?
  {
    PageDrawsSomeIff(search, page, text, matches);
  }

  /** Multiset algebra: an element of both parts occurs twice in any supermultiset of their union. */
  lemma TwoCopies(before: seq<Op>, last: seq<Op>, whole: seq<Op>, x: Op)
    requires multiset(before + last) <= multiset(whole)
    requires multiset(before)[x] >= 1 && multiset(last)[x] >= 1
    ensures multiset(whole)[x] >= 2
  {
    assert multiset(before + last) == multiset(before) + multiset(last);
  }

  lemma DrawsOfCount(page: nat, rects: seq<Rect>, rect: Rect)
    requires rect in rects
    ensures multiset(DrawsOf(page, rects))[Draw(Mark(page, rect))] >= 1
  {
    var k :| 0 <= k < |rects| && rects[k] == rect;
    assert DrawsOf(page, rects)[k] == Draw(Mark(page, rect));
  }

  /** A rectangle found for a match is painted at least once. */
  lemma PaintedOnce(search: Search, page: nat, text: string, matches: seq<Span>, i: nat, rect: Rect)
    requires i < |matches| && PageDraws(search, page, text, matches).Some?
    requires search(page, Literal(text, matches[i])).Some? && rect in search(page, Literal(text, matches[i])).value
    ensures multiset(PageDraws(search, page, text, matches).value)[Draw(Mark(page, rect))] >= 1
  {
    PageDrawsMember(search, page, text, matches, Draw(Mark(page, rect)));
  }

  /**
   * No de-duplication: when two matches of a page spell the same literal,
   * every rectangle the search returns for it is painted at least twice.
   */
  lemma Repainted(search: Search, page: nat, text: string, matches: seq<Span>, i: nat, j: nat, rect: Rect)
    requires i < j < |matches| && Literal(text, matches[i]) == Literal(text, matches[j])
    requires PageDraws(search, page, text, matches).Some?
    requires search(page, Literal(text, matches[i])).Some? && rect in search(page, Literal(text, matches[i])).value
    ensures multiset(PageDraws(search, page, text, matches).value)[Draw(Mark(page, rect))] >= 2
  {
    var x := Draw(Mark(page, rect));
    var before := PageDraws(search, page, text, matches[..j]);
    var last := DrawsOf(page, search(page, Literal(text, matches[j])).value);
    assert before.Some? && multiset(before.value + last) <= multiset(PageDraws(search, page, text, matches).value) by {
      PageDrawsPrefix(search, page, text, matches, j + 1);
      PageDrawsLast(search, page, text, matches, j);
    }
    assert multiset(before.value)[x] >= 1 by {
      assert matches[..j][i] == matches[i];
      PaintedOnce(search, page, text, matches[..j], i, rect);
    }
    assert multiset(last)[x] >= 1 by {
      DrawsOfCount(page, search(page, Literal(text, matches[j])).value, rect);
    }
    TwoCopies(before.value, last, PageDraws(search, page, text, matches).value, x);
  }

  /** The calls for page `p`, with the result its worker returned. */
  function PagePlan(search: Search, texts: seq<string>, results: seq<PageResult>, p: nat): seq<Op>
    requires p < |texts| && p < |results|
  {
    match PageDraws(search, p, texts[p], results[p].matches)
    case None => []
    case Some(ops) => ops
  }

  /** The calls planned for page `p` (none for a page without a plan). */
  function PlanOf(plans: seq<seq<Op>>, p: nat): seq<Op>
  {
    if p < |plans| then plans[p] else []
  }

  /** The calls of the pages `order`, one page after the other. */
  function InOrder(plans: seq<seq<Op>>, order: seq<nat>): seq<Op>
  {
    ConcatMap(order, p => PlanOf(plans, p))
  }

  /** `[0, 1, ..., n-1]` */
  function Range(n: nat): (r: seq<nat>)
    ensures |r| == n && forall k :: 0 <= k < n ==> r[k] == k
  {
    if n == 0 then [] else Range(n - 1) + [n - 1]
  }

  /** A call is made for the pages `order` exactly when it is planned for one of them. */
  lemma InOrderMember(plans: seq<seq<Op>>, order: seq<nat>, x: Op)
    ensures x in InOrder(plans, order) <==> exists k :: 0 <= k < |order| && x in PlanOf(plans, order[k])
  {
    ConcatMapMember(order, p => PlanOf(plans, p), x);
  }

  lemma InOrderAppend(plans: seq<seq<Op>>, a: seq<nat>, b: seq<nat>)
    ensures InOrder(plans, a + b) == InOrder(plans, a) + InOrder(plans, b)
  {
    ConcatMapAppend(a, b, p => PlanOf(plans, p));
  }

  lemma InOrderSingle(plans: seq<seq<Op>>, x: nat)
    ensures InOrder(plans, [x]) == PlanOf(plans, x)
  {
    assert [x] == [] + [x];
    ConcatMapSnoc([], p => PlanOf(plans, p), x);
  }

  /** Taking page `b[i]` out of the order takes its calls out of the painting. */
  lemma InOrderSplit(plans: seq<seq<Op>>, b: seq<nat>, i: nat)
    requires i < |b|
    ensures multiset(InOrder(plans, b)) == multiset(InOrder(plans, b[..i] + b[i + 1..])) + multiset(PlanOf(plans, b[i]))
  {
    var b1, x, b2 := b[..i], b[i], b[i + 1..];
    assert b == (b1 + [x]) + b2;
    InOrderAppend(plans, b1 + [x], b2);
    InOrderAppend(plans, b1, [x]);
    InOrderAppend(plans, b1, b2);
    InOrderSingle(plans, x);
  }

  /**
   * Order independence: painting the pages in an order that is a
   * rearrangement of another makes the same calls.
   */
  lemma {:induction false} InOrderPermutation(plans: seq<seq<Op>>, a: seq<nat>, b: seq<nat>)
    requires multiset(a) == multiset(b)
    ensures multiset(InOrder(plans, a)) == multiset(InOrder(plans, b))
    decreases |a|
  {
    if a != [] {
      var n := |a| - 1;
      var x := a[n];
      assert a == a[..n] + [x];
      assert x in multiset(b);
      var i :| 0 <= i < |b| && b[i] == x;
      var rest := b[..i] + b[i + 1..];
      assert multiset(a) == multiset(a[..n]) + multiset([x]);
      assert multiset(b) == multiset(rest) + multiset([x]) by {
        assert b == b[..i] + [x] + b[i + 1..];
      }
      assert multiset(a[..n]) == multiset(rest) by {
        assert multiset(a[..n]) == multiset(a) - multiset([x]);
        assert multiset(rest) == multiset(b) - multiset([x]);
      }
      InOrderPermutation(plans, a[..n], rest);
      InOrderSplit(plans, b, i);
    }
  }

  /** When the pages taken are a rearrangement of all pages, every page was taken. */
  lemma AllPagesTaken(order: seq<nat>, n: nat, p: nat)
    requires multiset(order) == multiset(Range(n)) && p < n
    ensures p in order
  {
    assert Range(n)[p] == p && Range(n)[p] in Range(n);
    assert p in multiset(order);
  }

  /** Page `p` was painted without error. */
  predicate Painted(search: Search, texts: seq<string>, results: seq<PageResult>, p: nat)
  {
    p < |texts| && p < |results| && PageDraws(search, p, texts[p], results[p].matches).Some?
  }

  /** Every page of `order` was painted without error. */
  predicate AllPainted(search: Search, texts: seq<string>, results: seq<PageResult>, order: seq<nat>)
  {
    order == [] ||
      (AllPainted(search, texts, results, order[..|order| - 1]) && Painted(search, texts, results, order[|order| - 1]))
  }

  lemma AllPaintedSnoc(search: Search, texts: seq<string>, results: seq<PageResult>, order: seq<nat>, p: nat)
    ensures AllPainted(search, texts, results, order + [p])
        <==> AllPainted(search, texts, results, order) && Painted(search, texts, results, p)
  {
    assert (order + [p])[..|order|] == order;
  }

  lemma {:induction false} AllPaintedMember(search: Search, texts: seq<string>, results: seq<PageResult>,
                                            order: seq<nat>, p: nat)
    requires AllPainted(search, texts, results, order) && p in order
    ensures Painted(search, texts, results, p)
  {
    var n := |order| - 1;
    if order[n] != p {
      assert p in order[..n] by {
        assert order == order[..n] + [order[n]];
      }
      AllPaintedMember(search, texts, results, order[..n], p);
    }
  }

  /**
   * The body of the `as_completed` loop for one result: for each match, the
   * page text is sliced, searched, and every rectangle found is painted.
   * `ok` is false when a search raised.
   */
  method PaintPage(doc: Document, p: nat, matches: seq<Span>) returns (ok: bool)
    requires p < |doc.texts|
    modifies doc
    ensures ok <==> PageDraws(doc.search, p, doc.texts[p], matches).Some?
    ensures ok ==> doc.ops == old(doc.ops) + PageDraws(doc.search, p, doc.texts[p], matches).value
    ensures doc.saved == old(doc.saved) && doc.closed == old(doc.closed)
  {
    var text, search := doc.texts[p], doc.search;
    ghost var done: seq<Op> := [];
    var m := 0;
    while m < |matches|
      invariant m <= |matches|
      invariant PageDraws(search, p, text, matches[..m]) == Some(done)
      invariant doc.ops == old(doc.ops) + done
      invariant doc.saved == old(doc.saved) && doc.closed == old(doc.closed)
    {
      var found := search(p, Literal(text, matches[m]));
      PageDrawsStep(search, p, text, matches, m);
      if found.None? {
        PageDrawsFails(search, p, text, matches, m);
        return false;
      }
      DrawAll(doc, p, found.value);
      done := done + DrawsOf(p, found.value);
      m := m + 1;
    }
    assert matches[..m] == matches;
    ok := true;
  }

  /** The inner loop over the rectangles one search found: each is painted, in order. */
  method DrawAll(doc: Document, p: nat, rects: seq<Rect>)
    requires p < |doc.texts|
    modifies doc
    ensures doc.ops == old(doc.ops) + DrawsOf(p, rects)
    ensures doc.saved == old(doc.saved) && doc.closed == old(doc.closed)
  {
    var r := 0;
    while r < |rects|
      invariant r <= |rects|
      invariant doc.ops == old(doc.ops) + DrawsOf(p, rects[..r])
      invariant doc.saved == old(doc.saved) && doc.closed == old(doc.closed)
    {
      assert rects[..r + 1][..r] == rects[..r];
      doc.DrawRect(p, rects[r]);
      r := r + 1;
    }
    assert rects[..r] == rects;
  }

  /** The calls planned for the first `n` pages, with the results the workers returned. */
  function PlansUpTo(search: Search, texts: seq<string>, results: seq<PageResult>, n: nat): (r: seq<seq<Op>>)
    requires n <= |results| == |texts|
    ensures |r| == n
  {
    if n == 0 then [] else PlansUpTo(search, texts, results, n - 1) + [PagePlan(search, texts, results, n - 1)]
  }

  /** The calls planned for every page. */
  function Plans(search: Search, texts: seq<string>, results: seq<PageResult>): (r: seq<seq<Op>>)
    requires |results| == |texts|
    ensures |r| == |results|
  {
    PlansUpTo(search, texts, results, |results|)
  }

  lemma {:induction false} PlansUpToAt(search: Search, texts: seq<string>, results: seq<PageResult>, n: nat, p: nat)
    requires p < n <= |results| == |texts|
    ensures PlansUpTo(search, texts, results, n)[p] == PagePlan(search, texts, results, p)
  {
    if p < n - 1 {
      PlansUpToAt(search, texts, results, n - 1, p);
    }
  }

  lemma InOrderSnoc(plans: seq<seq<Op>>, order: seq<nat>, p: nat)
    ensures InOrder(plans, order + [p]) == InOrder(plans, order) + PlanOf(plans, p)
  {
    ConcatMapSnoc(order, q => PlanOf(plans, q), p);
  }

  /** Taking the pending result at `f` keeps every page accounted for exactly once. */
  lemma TakeResult(order: seq<nat>, pending: seq<nat>, f: nat, all: multiset<nat>)
    requires f < |pending| && multiset(order) + multiset(pending) == all
    ensures multiset(order + [pending[f]]) + multiset(pending[..f] + pending[f + 1..]) == all
  {
    assert pending == pending[..f] + [pending[f]] + pending[f + 1..];
  }

  /**
   * `as_completed(futures)` for one future per page: the pages in the order
   * their workers complete, which the model leaves open; every page comes
   * exactly once.
   */
  method AsCompleted(n: nat) returns (order: seq<nat>)
    ensures multiset(order) == multiset(Range(n))
  {
    order := [];
    var pending: seq<nat> := Range(n);
    while pending != []
      invariant multiset(order) + multiset(pending) == multiset(Range(n))
      decreases |pending|
    {
      var f :| 0 <= f < |pending|;
      TakeResult(order, pending, f, multiset(Range(n)));
      order := order + [pending[f]];
      pending := pending[..f] + pending[f + 1..];
    }
  }

  /** A page taken from the completion order is one of the pages. */
  lemma CompletedInRange(order: seq<nat>, n: nat, i: nat)
    requires i < |order| && multiset(order) == multiset(Range(n))
    ensures order[i] < n
  {
    assert order[i] in multiset(Range(n));
  }

  /** One completed result: its page is painted with the calls planned for it. */
  method PaintResult(doc: Document, results: seq<PageResult>, ghost plans: seq<seq<Op>>, p: nat) returns (ok: bool)
    requires |results| == |doc.texts| && p < |results|
    requires plans == Plans(doc.search, doc.texts, results)
    modifies doc
    ensures ok <==> PageDraws(doc.search, p, doc.texts[p], results[p].matches).Some?
    ensures ok ==> doc.ops == old(doc.ops) + PlanOf(plans, p)
    ensures doc.saved == old(doc.saved) && doc.closed == old(doc.closed)
  {
    ok := PaintPage(doc, p, results[p].matches);
    PlansUpToAt(doc.search, doc.texts, results, |results|, p);
  }

  /** When every page of `order` is painted without error, so is the whole of `order`. */
  lemma {:induction false} AllPaintedIf(search: Search, texts: seq<string>, results: seq<PageResult>, order: seq<nat>)
    requires forall k :: 0 <= k < |order| ==> Painted(search, texts, results, order[k])
    ensures AllPainted(search, texts, results, order)
  {
    if order != [] {
      var n := |order| - 1;
      forall k | 0 <= k < n ensures Painted(search, texts, results, order[..n][k]) {
        assert order[..n][k] == order[k];
      }
      AllPaintedIf(search, texts, results, order[..n]);
    }
  }

  /** With every page once in `order`, painting all of `order` means painting every page. */
  lemma AllPaintedIff(search: Search, texts: seq<string>, results: seq<PageResult>, order: seq<nat>)
    requires |results| == |texts| && multiset(order) == multiset(Range(|results|))
    ensures AllPainted(search, texts, results, order) <==>
      forall p :: 0 <= p < |results| ==> PageDraws(search, p, texts[p], results[p].matches).Some?
  {
    var n := |results|;
    if AllPainted(search, texts, results, order) {
      forall p | 0 <= p < n ensures PageDraws(search, p, texts[p], results[p].matches).Some? {
        AllPagesTaken(order, n, p);
        AllPaintedMember(search, texts, results, order, p);
      }
    }
    if forall p :: 0 <= p < n ==> PageDraws(search, p, texts[p], results[p].matches).Some? {
      forall k | 0 <= k < |order| ensures Painted(search, texts, results, order[k]) {
        CompletedInRange(order, n, k);
      }
      AllPaintedIf(search, texts, results, order);
    }
  }

  /**
   * The body of the loop over the completed results, in the order given:
   * each result is painted on the page it names; `ok` is false when a search
   * raised (the exception leaves the loop).
   */
  method PaintInOrder(doc: Document, results: seq<PageResult>, order: seq<nat>) returns (ok: bool)
    requires |results| == |doc.texts|
    requires forall p :: 0 <= p < |results| ==> results[p].pageNum == p
    requires forall k :: 0 <= k < |order| ==> order[k] < |results|
    modifies doc
    ensures ok <==> AllPainted(doc.search, doc.texts, results, order)
    ensures ok ==> doc.ops == old(doc.ops) + InOrder(Plans(doc.search, doc.texts, results), order)
    ensures doc.saved == old(doc.saved) && doc.closed == old(doc.closed)
  {
    ghost var plans := Plans(doc.search, doc.texts, results);
    for i := 0 to |order|
      invariant AllPainted(doc.search, doc.texts, results, order[..i])
      invariant doc.ops == old(doc.ops) + InOrder(plans, order[..i])
      invariant doc.saved == old(doc.saved) && doc.closed == old(doc.closed)
    {
      var p := results[order[i]].pageNum;
      var painted := PaintResult(doc, results, plans, p);
      if !painted {
        NotAllPainted(doc.search, doc.texts, results, order, i);
        return false;
      }
      PaintedStep(doc.search, doc.texts, results, plans, order, i);
    }
    assert order[..|order|] == order;
    ok := true;
  }

  /** A page of `order` that fails leaves `order` not painted. */
  lemma NotAllPainted(search: Search, texts: seq<string>, results: seq<PageResult>, order: seq<nat>, i: nat)
    requires i < |order| && !Painted(search, texts, results, order[i])
    ensures !AllPainted(search, texts, results, order)
  {
    if AllPainted(search, texts, results, order) {
      AllPaintedMember(search, texts, results, order, order[i]);
    }
  }

  /** One more page of `order` painted: its calls follow, and the prefix stays painted. */
  lemma PaintedStep(search: Search, texts: seq<string>, results: seq<PageResult>, plans: seq<seq<Op>>,
                    order: seq<nat>, i: nat)
    requires i < |order|
    ensures InOrder(plans, order[..i + 1]) == InOrder(plans, order[..i]) + PlanOf(plans, order[i])
    ensures AllPainted(search, texts, results, order[..i + 1])
        <==> AllPainted(search, texts, results, order[..i]) && Painted(search, texts, results, order[i])
  {
    assert order[..i + 1] == order[..i] + [order[i]];
    InOrderSnoc(plans, order[..i], order[i]);
    AllPaintedSnoc(search, texts, results, order[..i], order[i]);
  }

  /**
   * The `for future in as_completed(futures)` loop: results are taken in the
   * completion order, and each is painted on the page it names. `ok` is false
   * when a search raised.
   */
  method ApplyResults(doc: Document, results: seq<PageResult>) returns (ok: bool, order: seq<nat>)
    requires |results| == |doc.texts|
    requires forall p :: 0 <= p < |results| ==> results[p].pageNum == p
    modifies doc
    ensures ok <==> forall p :: 0 <= p < |results| ==>
      PageDraws(doc.search, p, doc.texts[p], results[p].matches).Some?
    ensures ok ==> multiset(order) == multiset(Range(|results|))
    ensures ok ==> doc.ops == old(doc.ops) + InOrder(Plans(doc.search, doc.texts, results), order)
    ensures doc.saved == old(doc.saved) && doc.closed == old(doc.closed)
  {
    order := AsCompleted(|results|);
    forall k | 0 <= k < |order| ensures order[k] < |results| {
      CompletedInRange(order, |results|, k);
    }
    ok := PaintInOrder(doc, results, order);
    AllPaintedIff(doc.search, doc.texts, results, order);
  }
}
