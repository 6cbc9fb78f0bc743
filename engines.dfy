/**
 * The engines the redactors call but whose inner workings are not part of
 * this model: Presidio's `AnalyzerEngine.analyze` and Python's `re` module
 * applied to a pattern. Both are parameters of the model.
 */
module Engines {
  import opened Wrappers
  import opened PyText

  /**
   * `analyzer.analyze(text=..., language=...)` for a fixed language (and entity
   * list): the (start, end) of every recognised entity, or None when it raises.
   */
  type Recognizer = string -> Option<seq<Span>>

  /**
   * `re.finditer(pattern, text)`: the (start, end) of every match in order, or
   * None when the pattern does not compile (`re.error`).
   */
  type Matcher = (string, string) -> Option<seq<Span>>

  /** `text[result.start:result.end]` */
  function Literal(text: string, sp: Span): (r: string)
    ensures OccursAt(r, text, MinNat(sp.start, |text|))
    ensures sp.start <= sp.end <= |text| ==> r == text[sp.start..sp.end]
  {
    Slice(text, sp.start, sp.end)
  }
}
