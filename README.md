# Presidio PDF redaction, modelled in Dafny

This project models the text side of the two PDF redactors in
`services/presidio/presidio-analyzer/`. Each redactor:

- finds personal data in the text of a PDF with a Presidio `AnalyzerEngine`;
- adds caller-supplied keywords and regular-expression matches;
- blacks out every place on the pages where one of the resulting strings is shown.

The analyzer, Python's `re` engine and PyMuPDF's `search_for` are parameters of the model:

- a `Recognizer` from text to `(start, end)` spans, or None when it raises;
- a `Matcher` from a pattern and a text to the spans of its matches, or None;
- a `Search` from a page and a string to rectangles, or None.

Literal search (`re.finditer(re.escape(e), text)`) and Python's string operations are modelled concretely. These include clamped slices, `str.find`, `str.strip`, `" ".join`, `deque(maxlen=…)` and `list(set)`.

Modules:

- `Wrappers` (wrappers.dfy): `Option` and `Result`.
- `PyText` (pytext.dfy): Python string semantics. It also holds generic folds over sequences (concatenation, union, union of fallible parts) and their membership lemmas.
- `Engines` (engines.dfy): the recognizer and matcher types, and `text[start:end]`.
- `Pdf` (pdf.dfy): an open document as a class.
  - The page texts and the search are fixed.
  - The calls that change pages (`draw_rect`, `add_redact_annot`, `apply_redactions`) are recorded in order.
  - `save` and `close` set the document's state.
- `Chunking` (chunking.dfy): `chunk_document` of the large-document variant.
  - It is specified as a function of the page texts and the configuration (`Chunks`).
  - It is implemented by the nested loops as methods.
- `ChunkProperties` (chunk_properties.dfy): what the chunker guarantees (lossless reconstruction, cut lengths, overlap seeding, context bounds, page order), plus the defect on line 80.
- `LargeAnalysis` (large_analysis.dfy): `process_text_chunk`, `analyze_document` and the custom-regex collection of the large variant.
- `LargeRedactor` (large_redactor.dfy): `process_page`, the painting of one worker result, and the `as_completed` loop. The completion order is an arbitrary arrangement of the pages.
- `LargeRedactPdf` (large_redact_pdf.dfy): `redact_pdf` of the large variant.
- `SimpleRedactor` (simple_redactor.dfy): `new_pdf_redactor.py` as a whole. It covers per-page detection with the length filter, per-page targets (the keywords, then the first match of each pattern), and per-target redaction that fails independently.

### Where the two variants differ

The two variants are kept separate because they differ in these ways:

| behaviour | large variant | simple variant |
|---|---|---|
| regular-expression matches | every match on every page (`LargeAnalysis.RegexHitsIff`) | only the first match of each pattern on a page (`SimpleRedactor.FirstMatchesIff`) |
| length filter | none | drops detected literals of two characters or fewer after stripping (`SimpleRedactor.ExtractEntities`) |
| redaction | only draws black rectangles | adds an annotation and a black rectangle per hit, then applies the annotations once per page |
| failures | analyzer errors are swallowed per chunk; pattern and search errors abort the run | analyzer and pattern errors abort the run; search errors are swallowed per target |

In both variants, a run that raises leaves the document unsaved and open. Only a successful run saves and closes it.

The large variant paints once for every occurrence of a literal. It does not de-duplicate, so when a literal occurs twice on a page, every rectangle found for it is painted twice (`LargeRedactor.Repainted`).

For the final chunk, the model follows the code as corrected (see Findings). The chunk's `before` context is the whole text of the page before the last, when the deque holds at least two pages. It is not an empty or bounded string.

## Model

Source paths are relative to the repository root. `pdf_redactorrr.py` and `new_pdf_redactor.py` are both under `services/presidio/presidio-analyzer/`.

| member | source | states |
|---|---|---|
| PyText.Slice | services/presidio/presidio-analyzer/pdf_redactorrr.py:53 | a Python slice is the piece of the string starting at the start index clamped to the length, and the exact slice when both indices are in range |
| PyText.Head | services/presidio/presidio-analyzer/pdf_redactorrr.py:67 | `s[:n]` is the prefix of length min(n, len(s)) |
| PyText.Tail | services/presidio/presidio-analyzer/pdf_redactorrr.py:66 | `s[-n:]` is the suffix of length min(n, len(s)), and the whole string when n is 0 (Python's `-0`) |
| PyText.Find | services/presidio/presidio-analyzer/pdf_redactorrr.py:54 | `s.find(c, lo, hi)` succeeds exactly when `c` occurs in `s[lo:hi]`, and then returns the first index of `c` in that range |
| PyText.StripSpec | services/presidio/presidio-analyzer/new_pdf_redactor.py:32 | `strip()` keeps a contiguous middle piece that neither starts nor ends with whitespace; everything removed on either side is whitespace |
| PyText.OccurrencesFrom | services/presidio/presidio-analyzer/pdf_redactorrr.py:190 | literal `finditer` reports only true occurrences of the needle, each `(start, start+len)`, left to right and non-overlapping |
| PyText.OccurrencesFromCover | services/presidio/presidio-analyzer/pdf_redactorrr.py:190 | literal `finditer` misses nothing: every occurrence lies inside a reported match that starts at or before it |
| PyText.OccurrencesEmptyIff | services/presidio/presidio-analyzer/pdf_redactorrr.py:190 | `finditer` yields nothing exactly when the needle occurs nowhere in the text |
| PyText.ListOf | services/presidio/presidio-analyzer/pdf_redactorrr.py:100 | `list(set)` holds exactly the set's elements, each once, in an order left open |
| Engines.Literal | services/presidio/presidio-analyzer/pdf_redactorrr.py:30 | `text[start:end]` occurs in the text at the clamped start, and is the exact slice when the span is in range |
| Pdf.Document.constructor | services/presidio/presidio-analyzer/pdf_redactorrr.py:112 | an opened document shows the given pages, has no recorded calls, and is neither saved nor closed |
| Pdf.Document.DrawRect | services/presidio/presidio-analyzer/pdf_redactorrr.py:162 | `draw_rect` appends one black box on that page and changes nothing else |
| Pdf.Document.AddRedactAnnot | services/presidio/presidio-analyzer/new_pdf_redactor.py:109 | `add_redact_annot` appends one annotation on that page and changes nothing else |
| Pdf.Document.ApplyRedactions | services/presidio/presidio-analyzer/new_pdf_redactor.py:115 | `apply_redactions` is recorded for that page and changes nothing else |
| Pdf.Document.Save | services/presidio/presidio-analyzer/pdf_redactorrr.py:167 | the document is saved to the path; the recorded calls and the closed flag are unchanged |
| Pdf.Document.Close | services/presidio/presidio-analyzer/pdf_redactorrr.py:168 | the document is closed; nothing else changes |
| Chunking.CutPoint | services/presidio/presidio-analyzer/pdf_redactorrr.py:50-54 | the break point lies in [chunk_size-99, chunk_size+100] and within the buffer |
| Chunking.CutPointSpec | services/presidio/presidio-analyzer/pdf_redactorrr.py:50-54 | the break point is just after the first '.' of `buffer[size-100:size+100]` when that window holds one, and is `size` otherwise |
| Chunking.Push | services/presidio/presidio-analyzer/pdf_redactorrr.py:44 | appending to a `deque(maxlen=n)` keeps the last min(len+1, n) entries of the old contents followed by the new page |
| Chunking.ContextBefore | services/presidio/presidio-analyzer/pdf_redactorrr.py:58-66 | `" ".join(list(context_buffer)[:-1])[-overlap:]`, or "" when the join is empty; its meaning is stated by `ContextBeforeTail` |
| Chunking.ContextBeforeTail | services/presidio/presidio-analyzer/pdf_redactorrr.py:58-66 | `before` is a suffix of the buffered pages other than the newest, joined by spaces: empty while the deque holds at most one page, at most `overlap` characters when `overlap` is positive, and the whole join when `overlap` is 0 (`s[-0:]`) |
| Chunking.ContextAfter | services/presidio/presidio-analyzer/pdf_redactorrr.py:59-67 | the next page's text cut to `overlap` characters, "" on the last page; its meaning is stated by `ContextAfterHead` |
| Chunking.ContextAfterHead | services/presidio/presidio-analyzer/pdf_redactorrr.py:59-67 | `after` is the prefix of the next page of length min(overlap, its length), and "" on the last page |
| Chunking.Cut | services/presidio/presidio-analyzer/pdf_redactorrr.py:57-72 | one cut leaves a strictly shorter buffer (the inner loop terminates because the break point exceeds the overlap) |
| Chunking.Drain | services/presidio/presidio-analyzer/pdf_redactorrr.py:50-72 | the inner loop leaves a buffer shorter than `chunk_size` and the deque unchanged |
| Chunking.Feed | services/presidio/presidio-analyzer/pdf_redactorrr.py:43-72 | one outer iteration: the page joins the deque as `deque.append` does, its text joins the buffer, and the inner loop leaves a buffer shorter than `chunk_size` |
| Chunking.ScanTo | services/presidio/presidio-analyzer/pdf_redactorrr.py:41-74 | the state after the outer loop has read the first `i` pages; the buffer left is shorter than `chunk_size` (the invariant it keeps is stated by the ChunkProperties lemmas) |
| Chunking.Finish | services/presidio/presidio-analyzer/pdf_redactorrr.py:76-83 | the chunks already cut come first; one more chunk follows exactly when text remains, holding that text, an empty `after` and the last page index (corrected line 80) |
| Chunking.Chunks | services/presidio/presidio-analyzer/pdf_redactorrr.py:35-83 | every tuple the generator yields: the chunks cut in the loops, then at most one more |
| Chunking.FinishAsWritten | services/presidio/presidio-analyzer/pdf_redactorrr.py:76-83 | the final yield as written fails exactly when text remains and the deque holds two or more pages; otherwise it yields what `Finish` yields |
| Chunking.ChunksAsWritten | services/presidio/presidio-analyzer/pdf_redactorrr.py:35-83 | the generator as written fails exactly when its final yield does; where it does not fail it yields the same chunks as `Chunks` |
| Chunking.CutOnce | services/presidio/presidio-analyzer/pdf_redactorrr.py:52-72 | one iteration of the inner loop appends the chunk and leaves the buffer that `Cut` defines |
| Chunking.CutChunks | services/presidio/presidio-analyzer/pdf_redactorrr.py:50-72 | the inner `while` loop yields the chunks and leaves the buffer that `Drain` defines |
| Chunking.ReadPage | services/presidio/presidio-analyzer/pdf_redactorrr.py:43-72 | one outer iteration appends the page to the deque and the buffer and runs the inner loop, reaching the state `Feed` defines |
| Chunking.ScanPages | services/presidio/presidio-analyzer/pdf_redactorrr.py:37-74 | the outer `while` loop over the pages reaches the state `Pending` defines |
| Chunking.Flush | services/presidio/presidio-analyzer/pdf_redactorrr.py:76-83 | the final yield adds the chunk that `Finish` defines (corrected line 80) |
| Chunking.ChunkDocument | services/presidio/presidio-analyzer/pdf_redactorrr.py:35-83 | the generator run to exhaustion yields exactly `Chunks(pages, cfg)`, of which the ChunkProperties lemmas state the guarantees |
| ChunkProperties.ChunksReassemble | services/presidio/presidio-analyzer/pdf_redactorrr.py:41-83 | lossless: the first chunk followed by every later chunk minus its first `overlap` characters is the concatenation of all page texts |
| ChunkProperties.ChunkCuts | services/presidio/presidio-analyzer/pdf_redactorrr.py:50-57 | every chunk but the last has length in [chunk_size-99, chunk_size+100] and is cut either at `chunk_size` or just after a '.' |
| ChunkProperties.ChunkSeeds | services/presidio/presidio-analyzer/pdf_redactorrr.py:71-72 | every chunk after the first begins with the last `overlap` characters of the chunk before it |
| ChunkProperties.ChunkContexts | services/presidio/presidio-analyzer/pdf_redactorrr.py:58-68 | for every chunk but the last: `after` is at most the first `overlap` characters of the next page, and empty on the last page; `before` is the tail of the previously buffered pages joined by spaces, at most `overlap` characters when `overlap` is positive (which page the index names is stated by `ChunkPages`) |
| ChunkProperties.ChunkPages | services/presidio/presidio-analyzer/pdf_redactorrr.py:41-68 | for every chunk but the last, the index is that of the page being read when it is cut: from the chunk's offset in the document, the pages through that page hold at least `chunk_size` characters and the pages before it fewer (the chunk may end in an earlier page when its '.' lies there) |
| ChunkProperties.ChunkPositions | services/presidio/presidio-analyzer/pdf_redactorrr.py:41-83 | every chunk is the piece of the concatenated page texts that begins at its offset (0 for the first chunk, the end of the text before it minus `overlap` for the others) |
| ChunkProperties.SeamCovered | services/presidio/presidio-analyzer/pdf_redactorrr.py:41-83 | no text is lost at a seam: every piece of the document at most `overlap` characters long lies wholly inside some chunk |
| ChunkProperties.ChunkPagesOrdered | services/presidio/presidio-analyzer/pdf_redactorrr.py:41-74 | the page indices of the yielded chunks never decrease |
| ChunkProperties.FinalChunk | services/presidio/presidio-analyzer/pdf_redactorrr.py:76-83 | with a positive `overlap`, the last chunk is shorter than `chunk_size`, has an empty `after`, is attributed to the last page, and carries the page before the last as `before` when the deque holds two or more pages |
| ChunkProperties.NoChunksIffEmpty | services/presidio/presidio-analyzer/pdf_redactorrr.py:35-83 | a document yields no chunk exactly when its text is empty |
| ChunkProperties.ShortDocumentOneChunk | services/presidio/presidio-analyzer/pdf_redactorrr.py:76-83 | a non-empty document shorter than `chunk_size` yields exactly one chunk: the whole text, empty `after`, and the page before the last as `before` |
| ChunkProperties.AsWrittenFailsOnMultiPage | services/presidio/presidio-analyzer/pdf_redactorrr.py:80 | as written, with a positive overlap and a deque of two or more pages, the final yield raises `AttributeError` for every non-empty document of two or more pages |
| ChunkProperties.AsWrittenCounterexample | services/presidio/presidio-analyzer/pdf_redactorrr.py:80 | a concrete two-page document with the default configuration makes the generator as written raise |
| LargeAnalysis.AnalysisText | services/presidio/presidio-analyzer/pdf_redactorrr.py:91 | the analysed text is `before + " " + chunk + " " + after`, with the chunk at offset len(before)+1 |
| LargeAnalysis.ProcessTextChunk | services/presidio/presidio-analyzer/pdf_redactorrr.py:23-33 | one literal per recognizer result, in order: the k-th is `text[start:end]` of the k-th result; nothing when the recognizer raises |
| LargeAnalysis.ProcessTextChunkIff | services/presidio/presidio-analyzer/pdf_redactorrr.py:23-33 | a literal is returned exactly when the recognizer succeeds and it is `text[start:end]` of one of its results |
| LargeAnalysis.DetectedChunk | services/presidio/presidio-analyzer/pdf_redactorrr.py:87-100 | the detected set is the union over the chunks: a literal is in it exactly when some chunk's analysis returns it |
| LargeAnalysis.DetectedIff | services/presidio/presidio-analyzer/pdf_redactorrr.py:87-100 | a literal is detected exactly when it is `text[start:end]` of some result of the recognizer on some chunk with its context |
| LargeAnalysis.AnalyzeDocument | services/presidio/presidio-analyzer/pdf_redactorrr.py:85-100 | the returned list holds each detected literal of the document's chunks exactly once |
| LargeAnalysis.PatternHitsNoneIff | services/presidio/presidio-analyzer/pdf_redactorrr.py:130-134 | collecting one pattern fails exactly when it fails on some page |
| LargeAnalysis.PatternHitsIff | services/presidio/presidio-analyzer/pdf_redactorrr.py:130-134 | otherwise a literal is collected exactly when it is the text of some match of the pattern on some page |
| LargeAnalysis.RegexHitsNoneIff | services/presidio/presidio-analyzer/pdf_redactorrr.py:128-134 | the custom expressions fail exactly when some pattern fails on some page |
| LargeAnalysis.RegexHitsIff | services/presidio/presidio-analyzer/pdf_redactorrr.py:128-134 | otherwise a literal is added exactly when it is the text of some match (all of them, not only the first) of some pattern on some page |
| LargeAnalysis.CollectPatternMatches | services/presidio/presidio-analyzer/pdf_redactorrr.py:130-134 | the `for page in doc` loop computes the pattern's hits |
| LargeAnalysis.CollectRegexMatches | services/presidio/presidio-analyzer/pdf_redactorrr.py:128-134 | the nested loops compute the hits of every pattern |
| LargeRedactor.EntityMatches | services/presidio/presidio-analyzer/pdf_redactorrr.py:186-191 | soundness: every reported pair lies in the text and spells one of the entities |
| LargeRedactor.ProcessPage | services/presidio/presidio-analyzer/pdf_redactorrr.py:182-195 | the result keeps the page number, and each of its matches spells an entity |
| LargeRedactor.OccurrenceReported | services/presidio/presidio-analyzer/pdf_redactorrr.py:187-191 | every occurrence the scan reports for an entity is among the page's matches |
| LargeRedactor.EntityMatchesComplete | services/presidio/presidio-analyzer/pdf_redactorrr.py:187-191 | completeness: wherever an entity occurs, a reported pair spelling it starts at or before that place and covers it |
| LargeRedactor.NoMatchesIff | services/presidio/presidio-analyzer/pdf_redactorrr.py:187-191 | a page yields no pair exactly when no entity occurs in its text |
| LargeRedactor.OccurringMatch | services/presidio/presidio-analyzer/pdf_redactorrr.py:187-191 | an entity that occurs in the text is the literal of one of the page's matches |
| LargeRedactor.DrawsOf | services/presidio/presidio-analyzer/pdf_redactorrr.py:161-162 | one black box per rectangle found, in order, on that page |
| LargeRedactor.PageDraws | services/presidio/presidio-analyzer/pdf_redactorrr.py:158-162 | the calls painting one result, match by match, or none when a search raises; stated by `PageDrawsSomeIff` and `PageDrawsMember` |
| LargeRedactor.PageDrawsSomeIff | services/presidio/presidio-analyzer/pdf_redactorrr.py:158-162 | a result is painted without error exactly when the search for each of its matches succeeds |
| LargeRedactor.PageDrawsFails | services/presidio/presidio-analyzer/pdf_redactorrr.py:160 | one failing search fails the whole page |
| LargeRedactor.PageSucceedsIff | services/presidio/presidio-analyzer/pdf_redactorrr.py:158-162 | with the matches `process_page` reports, a page is painted without error exactly when the search succeeds for every entity that occurs in its text |
| LargeRedactor.PageDrawsMember | services/presidio/presidio-analyzer/pdf_redactorrr.py:158-162 | a painted page draws exactly the rectangles the searches for its matches returned, all on that page, and makes no other call |
| LargeRedactor.PaintedOnce | services/presidio/presidio-analyzer/pdf_redactorrr.py:158-162 | every rectangle found for a match is painted at least once |
| LargeRedactor.Repainted | services/presidio/presidio-analyzer/pdf_redactorrr.py:158-162 | no de-duplication: when two matches spell the same literal, each of its rectangles is painted at least twice |
| LargeRedactor.DrawAll | services/presidio/presidio-analyzer/pdf_redactorrr.py:161-162 | the loop over the rectangles paints each one, in order |
| LargeRedactor.PaintPage | services/presidio/presidio-analyzer/pdf_redactorrr.py:157-162 | painting one result succeeds exactly when every search succeeds, and then appends exactly that page's painting |
| LargeRedactor.InOrderPermutation | services/presidio/presidio-analyzer/pdf_redactorrr.py:152 | order independence: any rearrangement of the pages makes the same calls, as a multiset |
| LargeRedactor.AsCompleted | services/presidio/presidio-analyzer/pdf_redactorrr.py:152 | the completion order is an arrangement of the page indices, each exactly once |
| LargeRedactor.CompletedInRange | services/presidio/presidio-analyzer/pdf_redactorrr.py:152-157 | every page taken from the completion order is a page of the document |
| LargeRedactor.AllPagesTaken | services/presidio/presidio-analyzer/pdf_redactorrr.py:152 | every page of the document is taken from the completion order |
| LargeRedactor.AllPaintedIff | services/presidio/presidio-analyzer/pdf_redactorrr.py:152-162 | painting in any completion order succeeds exactly when every page's painting succeeds |
| LargeRedactor.PaintResult | services/presidio/presidio-analyzer/pdf_redactorrr.py:153-162 | one completed result is painted on the page it names, with the calls planned for that page |
| LargeRedactor.PaintInOrder | services/presidio/presidio-analyzer/pdf_redactorrr.py:152-164 | painting results in a given order succeeds exactly when every page in it succeeds, and then appends their plans in that order |
| LargeRedactor.ApplyResults | services/presidio/presidio-analyzer/pdf_redactorrr.py:152-164 | the `as_completed` loop succeeds exactly when every page's painting succeeds, and then appends every page's plan once, in completion order |
| LargeRedactPdf.ResultsAt | services/presidio/presidio-analyzer/pdf_redactorrr.py:140-148 | the worker for page `p` returns `p` and the matches of all entities in that page's text |
| LargeRedactPdf.AllPagesSucceedIff | services/presidio/presidio-analyzer/pdf_redactorrr.py:152-162 | every page is painted without error exactly when the search succeeds for every entity occurring on every page |
| LargeRedactPdf.MatchedLiteral | services/presidio/presidio-analyzer/pdf_redactorrr.py:158-160 | the string searched for a match is one of the entities, and it occurs in the page |
| LargeRedactPdf.PaintedWhereFound | services/presidio/presidio-analyzer/pdf_redactorrr.py:152-162 | a black box is drawn on a page exactly when the search for some entity occurring on that page returned that rectangle; no other call is made |
| LargeRedactPdf.Entities | services/presidio/presidio-analyzer/pdf_redactorrr.py:120-134 | with the corrected chunker: a literal is to be redacted exactly when it is detected, is one of the keywords, or is the text of some regex match; none when a custom expression raises |
| LargeRedactPdf.EntitiesAsWritten | services/presidio/presidio-analyzer/pdf_redactorrr.py:120-180 | with the chunker as written, the analysis raises exactly when the generator does, a failing expression raises otherwise, and when neither raises the literals are those of `Entities` |
| LargeRedactPdf.AsWrittenRunRaises | services/presidio/presidio-analyzer/pdf_redactorrr.py:80 | as written, with a positive overlap and a deque of two or more pages, every run over two or more pages with some text re-raises the chunker's `AttributeError` (line 180), whatever the analyzer, keywords and expressions |
| LargeRedactPdf.Painting | services/presidio/presidio-analyzer/pdf_redactorrr.py:152-162 | the painting calls of every page in page order; what they draw is stated by `PaintedWhereFound` |
| LargeRedactPdf.RedactPdf | services/presidio/presidio-analyzer/pdf_redactorrr.py:102-180 | with the corrected chunker, the run fails on a failing pattern or a failing search, and exactly then (it succeeds exactly when the entities are computed and every page's searches succeed); on success: `pages_processed` is the page count; the entities are detected ∪ keywords ∪ every regex match, each listed once; the drawn boxes are, up to completion order, the page-order painting; the document is saved and closed; on failure it is neither |
| SimpleRedactor.KeptLiteralsIff | services/presidio/presidio-analyzer/new_pdf_redactor.py:29-33 | a literal is kept exactly when some result spells it and it is longer than two characters once stripped |
| SimpleRedactor.ExtractEntities | services/presidio/presidio-analyzer/new_pdf_redactor.py:27-34 | the returned list holds exactly the kept literals, each once, each at least three characters long |
| SimpleRedactor.PageEntitiesIff | services/presidio/presidio-analyzer/new_pdf_redactor.py:62-76 | a page's entities are the kept literals of the analyzer's results on that page |
| SimpleRedactor.DetectedNoneIff | services/presidio/presidio-analyzer/new_pdf_redactor.py:60-76 | detection fails exactly when the analyzer raises on some page |
| SimpleRedactor.DetectedIff | services/presidio/presidio-analyzer/new_pdf_redactor.py:57-76 | otherwise an entity is detected exactly when some page's analysis reports it and it passes the length filter |
| SimpleRedactor.DetectEntities | services/presidio/presidio-analyzer/new_pdf_redactor.py:57-76 | the first pass computes the union of the per-page entities, or fails as the analyzer does |
| SimpleRedactor.FirstMatches | services/presidio/presidio-analyzer/new_pdf_redactor.py:98 | at most one literal per pattern |
| SimpleRedactor.FirstMatchesNoneIff | services/presidio/presidio-analyzer/new_pdf_redactor.py:98 | building the first matches fails exactly when some pattern raises on the page |
| SimpleRedactor.FirstMatchesIff | services/presidio/presidio-analyzer/new_pdf_redactor.py:98 | otherwise a literal is a target exactly when it is the first match of some pattern that matches; patterns without a match add nothing |
| SimpleRedactor.PageTargets | services/presidio/presidio-analyzer/new_pdf_redactor.py:96-99 | a page's targets start with every keyword, verbatim and in order, followed by at most one literal per pattern |
| SimpleRedactor.AnnotDrawsAt | services/presidio/presidio-analyzer/new_pdf_redactor.py:107-112 | each rectangle gets an annotation, immediately followed by its black box |
| SimpleRedactor.AnnotDrawsMember | services/presidio/presidio-analyzer/new_pdf_redactor.py:107-112 | the calls for the rectangles are exactly one annotation and one box on that page per rectangle found |
| SimpleRedactor.TargetOps | services/presidio/presidio-analyzer/new_pdf_redactor.py:101-114 | the calls for one page's targets, target by target; stated by `TargetOpsMember` |
| SimpleRedactor.TargetOpsMember | services/presidio/presidio-analyzer/new_pdf_redactor.py:101-114 | targets fail independently: a rectangle is annotated and boxed exactly when the search for some target succeeded and returned it, whatever the other targets' searches did |
| SimpleRedactor.PageOps | services/presidio/presidio-analyzer/new_pdf_redactor.py:101-115 | a page's calls end with `apply_redactions` on that page |
| SimpleRedactor.ApplyOnceLast | services/presidio/presidio-analyzer/new_pdf_redactor.py:101-115 | `apply_redactions` runs once per page, after all of the page's annotations |
| SimpleRedactor.RedactTarget | services/presidio/presidio-analyzer/new_pdf_redactor.py:102-114 | the body of the `try` appends an annotation and a box for each rectangle found; a failing search appends nothing |
| SimpleRedactor.RedactPage | services/presidio/presidio-analyzer/new_pdf_redactor.py:101-115 | the target loop and `apply_redactions` append exactly the page's calls |
| SimpleRedactor.PagesTargets | services/presidio/presidio-analyzer/new_pdf_redactor.py:91-99 | one target list per page |
| SimpleRedactor.PagesTargetsNoneIff | services/presidio/presidio-analyzer/new_pdf_redactor.py:91-99 | the second pass fails exactly when some pattern raises on some page |
| SimpleRedactor.PagesTargetsAt | services/presidio/presidio-analyzer/new_pdf_redactor.py:91-99 | otherwise page `p` is redacted for the keywords and the first matches on its own text |
| SimpleRedactor.OpsOf | services/presidio/presidio-analyzer/new_pdf_redactor.py:91-115 | the calls for every page in page order; stated by `OpsOfMember` |
| SimpleRedactor.OpsOfMember | services/presidio/presidio-analyzer/new_pdf_redactor.py:91-115 | a call is made exactly when it is one of the calls redacting some page |
| SimpleRedactor.RedactPages | services/presidio/presidio-analyzer/new_pdf_redactor.py:91-115 | the second pass succeeds exactly when no pattern raises, and then appends every page's calls in page order |
| SimpleRedactor.RedactPdf | services/presidio/presidio-analyzer/new_pdf_redactor.py:43-128 | the run fails on an analyzer error or a pattern error, and exactly then. The keywords are the detected entities followed by the additional ones. The patterns are the four defaults followed by the custom ones. On success, only the detected entities are reported, each once, and the document is saved and closed. On failure it is neither |

## Left out

- `AnalyzerEngine.analyze` is an abstract `Recognizer`. Its `language` and `entities` arguments are fixed into that function, because what they select is inside the analyzer.
- Regular-expression semantics (the default and custom patterns) are an abstract `Matcher`. `re.findall` on a pattern with capture groups returns the groups rather than the whole match, and that is not modelled. The first match's text is used instead.
- PyMuPDF is modelled only through its inputs and recorded calls:
  - page texts are fixed strings;
  - `search_for` is an abstract function of the page and the string;
  - `draw_rect`, `add_redact_annot` and `apply_redactions` are recorded calls that always succeed;
  - the removal of page content by `apply_redactions` is not modelled;
  - failures of `fitz.open` and `save` are not modelled.
- The large variant's `ProcessPoolExecutor` is modelled as a map over the pages followed by the merge. The only part of the concurrency kept is the completion order, which is nondeterministic. Worker crashes, pickling and the process pool are not modelled.
- The `except` branch of `process_page` is not modelled, because literal search cannot raise there.
- These outputs and measurements are not modelled, because they have no effect on the outcome:
  - `tqdm`, the logger and `print`;
  - `os.path.getsize`, so the floating-point `file_size_mb` entry of the summary is absent;
  - the constant `"status": "success"` entry, which a successful `Result` stands for.
- `None` for `additional_keywords` or `custom_regex` is modelled as an empty list. The `if` guards make the two equivalent.
- `Chunking` configurations must satisfy `overlap + 100 <= chunk_size`, which includes the defaults 50000/5000/3. Smaller chunk sizes make the source slice with negative indices (`break_point-100`, `break_point-overlap`). With such indices the inner loop need not terminate, so those configurations are outside the model.
- LargeRedactPdf.RedactPdf: it is stated for the corrected chunker (the `before` context of the final chunk is the page before the last). As written, line 80 raises `AttributeError` for every document of two or more pages with some text, and line 180 re-raises it; `EntitiesAsWritten` and `AsWrittenRunRaises` state that run.
- LargeRedactPdf.RedactPdf: the calls are stated as a multiset equal to the page-order painting. The completion order is left open, so the order of calls across pages is not fixed there. `LargeRedactor.ApplyResults` states the exact order for the order actually taken.
- LargeRedactor.EntityMatchesComplete: it states that every occurrence is covered by a reported match. Occurrences that overlap an earlier reported one are skipped, as `re.finditer` skips them, so not every occurrence starts a match.

## Findings

| source | as written | input that shows it | evidently intended | confidence | as-written member | corrected member |
|---|---|---|---|---|---|---|
| services/presidio/presidio-analyzer/pdf_redactorrr.py:80 | the final chunk's `before` context calls `.get_text()` on an entry of the deque. The deque holds page-text strings, so the call raises `AttributeError` whenever two or more pages were buffered | the two pages `"Contact Jane Doe"` and `"at jane@example.com."` with chunk size 50000, overlap 5000 and deque length 3 | `before` of the final chunk is the text of the page before the last | not executed | Chunking.ChunksAsWritten, ChunkProperties.AsWrittenCounterexample, LargeRedactPdf.AsWrittenRunRaises | Chunking.Chunks, ChunkProperties.FinalChunk |
