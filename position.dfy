/**
 * Line and character positions in a document's text, as the editor's
 * `positionAt` gives them for an offset: the line is the number of line
 * breaks before the offset and the character its distance from the start of
 * that line. An offset past the end of the text is clamped to the end.
 */
module Positions {
  /** A zero-based line and character. */
  datatype Position = Position(line: nat, character: nat)

  /** A range of the document between two positions. */
  datatype Range = Range(start: Position, end: Position)

  /** The offset `positionAt` actually looks at. */
  function Clamp(t: string, offset: nat): (o: nat)
    ensures o <= |t|
    ensures offset <= |t| ==> o == offset
    ensures offset > |t| ==> o == |t|
  {
    if offset <= |t| then offset else |t|
  }

  /** The number of line breaks in `t[..o]`. */
  function LinesBefore(t: string, o: nat): (n: nat)
    requires o <= |t|
    ensures n <= o
  {
    if o == 0 then 0 else LinesBefore(t, o - 1) + (if t[o - 1] == '\n' then 1 else 0)
  }

  /** The offset at which the line holding offset `o` starts. */
  function LineStart(t: string, o: nat): (r: nat)
    requires o <= |t|
    ensures r <= o
    ensures r == 0 || t[r - 1] == '\n'
    ensures forall k :: r <= k < o ==> t[k] != '\n'
  {
    if o == 0 then 0 else if t[o - 1] == '\n' then o else LineStart(t, o - 1)
  }

  /** The position of an offset. */
  function PositionAt(t: string, offset: nat): (p: Position)
    ensures p.line <= Clamp(t, offset) && p.character <= Clamp(t, offset)
  {
    var o := Clamp(t, offset);
    Position(LinesBefore(t, o), o - LineStart(t, o))
  }

  /** `p` comes no later than `q`. */
  predicate NotAfter(p: Position, q: Position) {
    p.line < q.line || (p.line == q.line && p.character <= q.character)
  }

  /** The character counts back to the start of the line: no line break in between, and one (or the text's start) just before. */
  lemma PositionAtCharacter(t: string, offset: nat)
    ensures var o, c := Clamp(t, offset), PositionAt(t, offset).character;
      c <= o && (o - c == 0 || t[o - c - 1] == '\n') && forall k :: o - c <= k < o ==> t[k] != '\n'
  {
  }

  /** A character other than a line break moves one character to the right. */
  lemma PositionAtNext(t: string, o: nat)
    requires o < |t| && t[o] != '\n'
    ensures PositionAt(t, o + 1) == Position(PositionAt(t, o).line, PositionAt(t, o).character + 1)
  {
  }

  /** A line break moves to the start of the next line. */
  lemma PositionAtNewline(t: string, o: nat)
    requires o < |t| && t[o] == '\n'
    ensures PositionAt(t, o + 1) == Position(PositionAt(t, o).line + 1, 0)
  {
  }

  /** Offsets past the end all have the position of the end. */
  lemma PositionAtPastEnd(t: string, offset: nat)
    requires offset >= |t|
    ensures PositionAt(t, offset) == PositionAt(t, |t|)
  {
  }

  /** Text without a line break stays on one line, and the character advances by its length. */
  lemma {:induction false} PositionAtSameLine(t: string, a: nat, b: nat)
    requires a <= b <= |t|
    requires forall k :: a <= k < b ==> t[k] != '\n'
    ensures PositionAt(t, b) == Position(PositionAt(t, a).line, PositionAt(t, a).character + (b - a))
    decreases b - a
  {
    if a < b {
      PositionAtSameLine(t, a, b - 1);
      PositionAtNext(t, b - 1);
    }
  }

  /** Positions follow the order of the offsets. */
  lemma {:induction false} PositionAtMonotone(t: string, a: nat, b: nat)
    requires a <= b
    ensures NotAfter(PositionAt(t, a), PositionAt(t, b))
  {
    if b > |t| {
      PositionAtPastEnd(t, b);
      if a <= |t| {
        PositionAtMonotoneWithin(t, a, |t|);
      } else {
        PositionAtPastEnd(t, a);
      }
    } else {
      PositionAtMonotoneWithin(t, a, b);
    }
  }

  /** Within the text, each character moves the position forward. */
  lemma {:induction false} PositionAtMonotoneWithin(t: string, a: nat, b: nat)
    requires a <= b <= |t|
    ensures NotAfter(PositionAt(t, a), PositionAt(t, b))
    decreases b - a
  {
    if a < b {
      PositionAtMonotoneWithin(t, a, b - 1);
      if t[b - 1] == '\n' {
        PositionAtNewline(t, b - 1);
      } else {
        PositionAtNext(t, b - 1);
      }
    }
  }
}
