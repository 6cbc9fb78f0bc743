/**
 * The part of a PyMuPDF document the redactors use. Page texts are what
 * `page.get_text()` returns; `page.search_for(s)` is an abstract function of
 * the page and the string, which yields the rectangles where the string is
 * shown or fails (None); the painting calls are recorded in order in `ops`.
 */
module Pdf {
  import opened Wrappers

  /** A rectangle on a page, as `search_for` reports it. */
  datatype Rect = Rect(x0: real, y0: real, x1: real, y1: real)

  /** `page.search_for(s)` on page `p`, or None when it raises. */
  type Search = (nat, string) -> Option<seq<Rect>>

  /** A rectangle on a given page. */
  datatype Mark = Mark(page: nat, rect: Rect)

  /** The calls that change a page. */
  datatype Op =
    | Draw(mark: Mark)        // page.draw_rect(rect, color=black, fill=black)
    | Annot(mark: Mark)       // page.add_redact_annot(rect)
    | Apply(page: nat)        // page.apply_redactions()

  /** An open document. */
  class Document {
    const texts: seq<string>
    const search: Search
    var ops: seq<Op>
    var saved: Option<string>
    var closed: bool

    /** `fitz.open(path)` on a file whose pages show `texts`. */
    constructor (texts: seq<string>, search: Search)
      ensures this.texts == texts && this.search == search
      ensures ops == [] && saved == None && !closed
    {
      this.texts := texts;
      this.search := search;
      ops := [];
      saved := None;
      closed := false;
    }

    /** `len(doc)` */
    function PageCount(): nat
    {
      |texts|
    }

    method DrawRect(page: nat, rect: Rect)
      requires page < |texts|
      modifies this
      ensures ops == old(ops) + [Draw(Mark(page, rect))]
      ensures saved == old(saved) && closed == old(closed)
    {
      ops := ops + [Draw(Mark(page, rect))];
    }

    method AddRedactAnnot(page: nat, rect: Rect)
      requires page < |texts|
      modifies this
      ensures ops == old(ops) + [Annot(Mark(page, rect))]
      ensures saved == old(saved) && closed == old(closed)
    {
      ops := ops + [Annot(Mark(page, rect))];
    }

    method ApplyRedactions(page: nat)
      requires page < |texts|
      modifies this
      ensures ops == old(ops) + [Apply(page)]
      ensures saved == old(saved) && closed == old(closed)
    {
      ops := ops + [Apply(page)];
    }

    /** `doc.save(path)` */
    method Save(path: string)
      modifies this
      ensures saved == Some(path)
      ensures ops == old(ops) && closed == old(closed)
    {
      saved := Some(path);
    }

    /** `doc.close()` */
    method Close()
      modifies this
      ensures closed
      ensures ops == old(ops) && saved == old(saved)
    {
      closed := true;
    }
  }
}
