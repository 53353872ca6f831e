/** The older code lens provider: it deletes comments outright before running the three
    tests, and shows a single lens, without command arguments, on the whole line of the
    first call of the original text. */
module GotoMock {
  import opened StringUtils
  import opened Editor
  import opened Patterns
  import opened Utils
  import opened InsertUnmock

  /** `TypescriptGotoMockProvider.provideCodeLenses(document)`. The stripped text decides
      only whether a lens is shown; its line is computed on the original text. */
  function GotoMockLens(text: string): (r: Option<Lens>)
    ensures r.Some? ==> |r.value.arguments| == 0
    ensures r.Some? ==> r.value.range.IsSingleLine() && r.value.range.start.character == 0
    ensures r.Some? ==>
      r.value.range.start.line < |Lines(text)|
      && r.value.range.end.character == |Lines(text)[r.value.range.start.line]|
  {
    var stripped := ReplaceAll(Comment, text, Delete);
    if !LooksUnmocked(stripped) then None
    else
      var i := Search(MatchTable(Call, text), 0);
      if i < 0 then None
      else
        var n := |Split(text[..i], '\n')|;
        var ln := if n > 0 then n - 1 else n;
        assert ln == LineOf(text, i);
        Some(Lens(MakeRange(ln, 0, ln, |Lines(text)[ln]|), []))
  }

  /** The lens is shown exactly when the text with its comments deleted passes the three
      tests and the original text has a call; it spans the whole line of the first call. */
  lemma {:induction false} GotoLensOnFirstCallLine(text: string)
    ensures GotoMockLens(text).Some? <==> LooksUnmocked(ReplaceAll(Comment, text, Delete)) && HasCallText(text)
    ensures GotoMockLens(text).Some? ==>
      var ln := LineOf(text, MatchAll(Call, text)[0].start);
      GotoMockLens(text).value.range == Range(Position(ln, 0), Position(ln, |Lines(text)[ln]|))
  {
    CallTest(text);
    MatchAllAgreesWithSearch(Call, text);
  }

  /** On a text without comment markers the two lens providers agree on whether to show a
      lens, and the older lens holds the newer one: both sit on the line of the first call. */
  lemma {:induction false} GotoLensAgreesWithInsertLens(text: string)
    requires !Contains(text, "/*") && !Contains(text, "//")
    ensures GotoMockLens(text).Some? <==> CodeLens(text).Some?
    ensures GotoMockLens(text).Some? ==>
      GotoMockLens(text).value.range.ContainsRange(CodeLens(text).value.range)
      && GotoMockLens(text).value.range.start.line == CodeLens(text).value.range.start.line
  {
    NoCommentMarkersKeepText(text, Delete);
    NoCommentMarkersKeepText(text, KeepNewlines);
    GotoLensOnFirstCallLine(text);
    if CodeLens(text).Some? {
      CodeLensOnFirstCallLine(text);
    }
  }
}
