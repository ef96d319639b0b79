/** Line/column coordinates and half-open ranges between them. */
module Positions {

  /** A 0-based line and a 0-based column within that line. */
  datatype Position = Position(line: nat, column: nat)

  /** A range from `start` (inclusive) to `end` (exclusive). */
  datatype Range = Range(start: Position, end: Position)

  function NewPosition(line: nat, column: nat): (p: Position)
    ensures p.line == line && p.column == column
  {
    Position(line, column)
  }

  function Zero(): (p: Position)
    ensures p.line == 0 && p.column == 0
  {
    Position(0, 0)
  }

  /** `Default for Position`. */
  function DefaultPosition(): Position {
    Zero()
  }

  /** The three ways of writing the origin agree. */
  lemma OriginAgrees()
    ensures Zero() == DefaultPosition() == NewPosition(0, 0)
  {
  }

  /** Lexicographic (line, then column) order on positions. */
  predicate Before(a: Position, b: Position) {
    a.line < b.line || (a.line == b.line && a.column < b.column)
  }

  predicate AtOrBefore(a: Position, b: Position) {
    Before(a, b) || a == b
  }

  function NewRange(start: Position, end: Position): (r: Range)
    ensures r.start == start && r.end == end
  {
    Range(start, end)
  }

  function FromPositions(startLine: nat, startColumn: nat, endLine: nat, endColumn: nat): (r: Range)
    ensures r == NewRange(NewPosition(startLine, startColumn), NewPosition(endLine, endColumn))
  {
    Range(Position(startLine, startColumn), Position(endLine, endColumn))
  }

  function IsEmpty(r: Range): (b: bool)
    ensures b <==> r.start == r.end
  {
    r.start == r.end
  }

  /** The range holds `p` exactly when start <= p < end in (line, column) order. */
  function Contains(r: Range, p: Position): (b: bool)
    ensures b <==> AtOrBefore(r.start, p) && Before(p, r.end)
  {
    if p.line < r.start.line || p.line > r.end.line then false
    else if p.line == r.start.line && p.column < r.start.column then false
    else if p.line == r.end.line && p.column >= r.end.column then false
    else true
  }

  /** The end of a range is never inside it, so an empty range holds nothing. */
  lemma EndNotContained(r: Range, p: Position)
    ensures !Contains(r, r.end)
    ensures IsEmpty(r) ==> !Contains(r, p)
  {
  }
}
