/** Half-open offset intervals `[start, end)`, the role oxc_span's `Span` plays in the linter. */
module Spans {

  datatype Span = Span(start: nat, end: nat)

  /** Moves a span from a sub-document's coordinates into whole-file coordinates, given the
      sub-document's start anchor (`script_start_offset` or `template_start_offset`). */
  function Shift(s: Span, anchor: nat): Span
  {
    Span(s.start + anchor, s.end + anchor)
  }
}
