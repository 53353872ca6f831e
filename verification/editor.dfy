/** The editor host's document coordinates: `vscode.Position`, `vscode.Range`, and the
    effect of inserting a snippet over a range of a line-feed separated document. */
module Editor {
  import opened StringUtils

  /** A zero-based line and character, ordered lexicographically. */
  datatype Position = Position(line: nat, character: nat) {

    predicate IsBefore(other: Position) {
      line < other.line || (line == other.line && character < other.character)
    }

    predicate IsBeforeOrEqual(other: Position) {
      IsBefore(other) || this == other
    }
  }

  /** A range between two positions; `Contains` includes both ends. */
  datatype Range = Range(start: Position, end: Position) {

    predicate WellFormed() {
      start.IsBeforeOrEqual(end)
    }

    predicate IsEmpty() {
      start == end
    }

    predicate IsSingleLine() {
      start.line == end.line
    }

    /** `range.contains(position)`. */
    predicate Contains(p: Position) {
      start.IsBeforeOrEqual(p) && p.IsBeforeOrEqual(end)
    }

    /** `range.contains(otherRange)`: both ends of the other range are contained. */
    predicate ContainsRange(other: Range) {
      Contains(other.start) && Contains(other.end)
    }
  }

  /** `new vscode.Range(startLine, startCharacter, endLine, endCharacter)`: the constructor
      swaps the two ends when the first lies after the second. */
  function MakeRange(startLine: nat, startCharacter: nat, endLine: nat, endCharacter: nat): (r: Range)
    ensures r.WellFormed()
    ensures {r.start, r.end} == {Position(startLine, startCharacter), Position(endLine, endCharacter)}
    ensures Position(startLine, startCharacter).IsBeforeOrEqual(Position(endLine, endCharacter)) ==>
              r.start == Position(startLine, startCharacter)
  {
    var a := Position(startLine, startCharacter);
    var b := Position(endLine, endCharacter);
    if b.IsBefore(a) then Range(b, a) else Range(a, b)
  }

  lemma {:induction false} OrderIsTotal(a: Position, b: Position, c: Position)
    ensures a.IsBeforeOrEqual(b) || b.IsBeforeOrEqual(a)
    ensures a.IsBeforeOrEqual(b) && b.IsBeforeOrEqual(a) ==> a == b
    ensures a.IsBeforeOrEqual(b) && b.IsBeforeOrEqual(c) ==> a.IsBeforeOrEqual(c)
  {
  }

  /** The length of the document whose lines are `lines`: their lengths plus one line feed
      between each two. */
  function JoinedLength(lines: seq<string>): nat {
    if |lines| == 0 then 0
    else if |lines| == 1 then |lines[0]|
    else |lines[0]| + 1 + JoinedLength(lines[1..])
  }

  /** The offset of the start of line `ln` in the document whose lines are `lines`. */
  function LineStart(lines: seq<string>, ln: nat): nat
    requires ln < |lines|
  {
    if ln == 0 then 0 else |lines[0]| + 1 + LineStart(lines[1..], ln - 1)
  }

  lemma {:induction false} SplitLength(s: string, sep: char)
    ensures JoinedLength(Split(s, sep)) == |s|
  {
    if |s| > 0 {
      SplitLength(s[1..], sep);
      var rest := Split(s[1..], sep);
      if s[0] == sep {
        assert ([""] + rest)[1..] == rest;
      } else {
        assert ([[s[0]] + rest[0]] + rest[1..])[1..] == rest[1..];
      }
    }
  }

  lemma {:induction false} LineInside(lines: seq<string>, ln: nat)
    requires ln < |lines|
    ensures LineStart(lines, ln) + |lines[ln]| <= JoinedLength(lines)
  {
    if ln > 0 {
      LineInside(lines[1..], ln - 1);
    }
  }

  /** The host's `offsetAt(validatePosition(p))` for a document split at line feeds: a line
      past the last one is the end of the document, a character past the line's end is the
      line's end. */
  function OffsetAt(text: string, p: Position): (off: nat)
    ensures off <= |text|
    ensures p.line < |Lines(text)| ==> LineStart(Lines(text), p.line) <= off
  {
    var lines := Lines(text);
    if p.line >= |lines| then |text|
    else
      SplitLength(text, '\n');
      LineInside(lines, p.line);
      LineStart(lines, p.line) + (if p.character < |lines[p.line]| then p.character else |lines[p.line]|)
  }

  /** Inserting `snippet` over `at` replaces the text the range covers: the text before the
      lower of the two offsets and after the higher one is kept, and the snippet sits
      between them. */
  function InsertOver(text: string, at: Range, snippet: string): (r: string)
    ensures
      var a := OffsetAt(text, at.start);
      var b := OffsetAt(text, at.end);
      var lo := if a <= b then a else b;
      var hi := if a <= b then b else a;
      && |r| == |text| - (hi - lo) + |snippet|
      && r[..lo] == text[..lo]
      && IsAt(r, lo, snippet)
      && r[lo + |snippet|..] == text[hi..]
  {
    var a := OffsetAt(text, at.start);
    var b := OffsetAt(text, at.end);
    var (lo, hi) := if a <= b then (a, b) else (b, a);
    text[..lo] + snippet + text[hi..]
  }

  /** An insertion at an empty range adds the snippet and nothing else: cutting it out again
      gives back the text. */
  lemma {:induction false} InsertAtPointIsUndone(text: string, p: Position, snippet: string)
    ensures
      var r := InsertOver(text, Range(p, p), snippet);
      var a := OffsetAt(text, p);
      |r| == |text| + |snippet| && r[a..a + |snippet|] == snippet && r[..a] + r[a + |snippet|..] == text
  {
    var r := InsertOver(text, Range(p, p), snippet);
    var a := OffsetAt(text, p);
    assert r[..a] + r[a + |snippet|..] == text[..a] + text[a..];
    assert text[..a] + text[a..] == text;
  }
}
