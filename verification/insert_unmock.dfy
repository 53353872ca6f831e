/** The insert-unmock providers: the detector of HTTP calls made without unmock, the two
    locators that tell the insert command where to write, and what the hover, code action
    and code lens providers decide. */
module InsertUnmock {
  import opened StringUtils
  import opened Editor
  import opened Patterns
  import opened Utils

  /** `IInsertUnmockAction`: the argument of the insert command. */
  datatype InsertUnmockAction = InsertUnmockAction(lastImportLocation: Position, unmockImportLocation: Range, lang: string)

  /** A code lens: its range and the arguments its command is invoked with. */
  datatype Lens = Lens(range: Range, arguments: seq<InsertUnmockAction>)

  /** A quick fix: the action its command carries and the range of its diagnostic. */
  datatype QuickFix = QuickFix(action: InsertUnmockAction, diagnostic: Range)

  /** The three tests on comment-stripped text: a request call is made, a client library
      is named, and `unmock(` is never called. */
  predicate LooksUnmocked(stripped: string) {
    Test(Call, stripped) && Test(Library, stripped) && !Test(UnmockCall, stripped)
  }

  /** The three tests in terms of what the text contains. */
  lemma {:induction false} LooksUnmockedMeans(stripped: string)
    ensures LooksUnmocked(stripped) <==>
      HasCallText(stripped)
      && (exists k :: 0 <= k < |LibraryNames| && Contains(stripped, LibraryNames[k]))
      && !Contains(stripped, "unmock(")
  {
    CallTest(stripped);
    LibraryTest(stripped);
    UnmockCallTest(stripped);
  }

  /** `matchJSRequestWithoutUnmock(srcText)`: when the stripped text looks unmocked, the
      texts of all call matches of the original text, in order; `None` (`null`) otherwise
      and when the original text has no call. */
  function MatchJSRequestWithoutUnmock(text: string): (r: Option<seq<string>>)
    ensures r.Some? <==> LooksUnmocked(RemoveJSComments(text)) && HasCallText(text)
    ensures r.Some? ==> r.value == MatchTexts(Call, text) && |r.value| > 0
    ensures r.Some? ==> forall k :: 0 <= k < |r.value| ==> IsCallText(r.value[k]) && Contains(text, r.value[k])
  {
    CallTest(text);
    MatchAllAgreesWithSearch(Call, text);
    if LooksUnmocked(RemoveJSComments(text)) then
      var calls := MatchTexts(Call, text);
      if |calls| == 0 then None
      else
        DetectedCallsAreCallTexts(text);
        Some(calls)
    else None
  }

  /** Every text of a call match is a call text that occurs in the text. */
  lemma {:induction false} DetectedCallsAreCallTexts(text: string)
    ensures forall k :: 0 <= k < |MatchTexts(Call, text)| ==>
      IsCallText(MatchTexts(Call, text)[k]) && Contains(text, MatchTexts(Call, text)[k])
  {
    forall k | 0 <= k < |MatchTexts(Call, text)|
      ensures IsCallText(MatchTexts(Call, text)[k]) && Contains(text, MatchTexts(Call, text)[k])
    {
      CallMatchIsCallText(text, k);
    }
  }

  lemma {:induction false} CallMatchIsCallText(text: string, k: nat)
    requires k < |MatchAll(Call, text)|
    ensures IsCallText(MatchTexts(Call, text)[k]) && Contains(text, MatchTexts(Call, text)[k])
  {
    var m := MatchAll(Call, text)[k];
    MatchTextOccurs(Call, text, k);
    CallAtMeansCallText(text, m.start, m.end);
  }

  /** The import statements of the comment-stripped text, in order. */
  function StrippedImports(text: string): (imports: seq<string>)
    ensures |imports| == |MatchAll(Pattern.ImportStatement, RemoveJSComments(text))|
  {
    MatchTexts(Pattern.ImportStatement, RemoveJSComments(text))
  }

  /** `findLastJSImport(srcText)`: column 0 of the line holding the last occurrence, in the
      original text, of the last import statement of the stripped text; (0, 0) when there
      is no import statement or when that statement does not occur in the original text. */
  function FindLastJSImport(text: string): (p: Position)
    ensures p.character == 0 && p.line < |Lines(text)|
    ensures |StrippedImports(text)| == 0 ==> p == Position(0, 0)
    ensures |StrippedImports(text)| > 0 && !Contains(text, StrippedImports(text)[|StrippedImports(text)| - 1]) ==>
      p == Position(0, 0)
    ensures |StrippedImports(text)| > 0 && Contains(text, StrippedImports(text)[|StrippedImports(text)| - 1]) ==>
      var last := StrippedImports(text)[|StrippedImports(text)| - 1];
      exists q :: IsAt(text, q, last) && p.line == LineOf(text, q) && forall j :: q < j ==> !IsAt(text, j, last)
  {
    var imports := StrippedImports(text);
    if |imports| == 0 then Position(0, 0)
    else
      var last := imports[|imports| - 1];
      var at := LastIndexOf(text, last);
      LastIndexOfContains(text, last);
      Position(if at < 0 then 0 else LineOf(text, at), 0)
  }

  /** `lastIndexOf` finds something exactly when the text occurs. */
  lemma {:induction false} LastIndexOfContains(s: string, needle: string)
    ensures LastIndexOf(s, needle) >= 0 <==> Contains(s, needle)
  {
    if Contains(s, needle) {
      var i :| 0 <= i <= |s| - |needle| && IsAt(s, i, needle);
    }
  }

  /** In a text without comment markers, the position found is on the line of the last
      import statement or below it. */
  lemma {:induction false} LastImportIsAtOrAbove(text: string)
    requires !Contains(text, "/*") && !Contains(text, "//")
    requires |MatchAll(Pattern.ImportStatement, text)| > 0
    ensures var ms := MatchAll(Pattern.ImportStatement, text);
      LineOf(text, ms[|ms| - 1].start) <= FindLastJSImport(text).line
  {
    StrippedImportsWithoutComments(text);
    var k := |MatchAll(Pattern.ImportStatement, text)| - 1;
    var start := MatchAll(Pattern.ImportStatement, text)[k].start;
    MatchTextOccurs(Pattern.ImportStatement, text, k);
    LastIndexOfAtOrAfter(text, MatchTexts(Pattern.ImportStatement, text)[k], start);
  }

  /** Without comment markers the stripped text is the text, so its imports are the text's. */
  lemma {:induction false} StrippedImportsWithoutComments(text: string)
    requires !Contains(text, "/*") && !Contains(text, "//")
    ensures StrippedImports(text) == MatchTexts(Pattern.ImportStatement, text)
  {
    NoCommentMarkersKeepText(text, KeepNewlines);
    assert RemoveJSComments(text) == text;
  }

  /** The last occurrence is at or after any occurrence, and `findLastJSImport` reports its
      line. */
  lemma {:induction false} LastIndexOfAtOrAfter(text: string, last: string, start: nat)
    requires IsAt(text, start, last)
    requires |StrippedImports(text)| > 0 && StrippedImports(text)[|StrippedImports(text)| - 1] == last
    ensures LineOf(text, start) <= FindLastJSImport(text).line
  {
    var at := LastIndexOf(text, last);
    assert start <= at;
    LineOfMonotone(text, start, at);
  }

  /** `unmockJSImportLocation(srcText)`: the empty range at (0, 0) when no line is an
      unmock import; otherwise the whole-line span of the line holding the first
      occurrence of the first such line's matched text. */
  function UnmockJSImportLocation(text: string): (r: Range)
    ensures !Test(Pattern.UnmockImport, text) ==> r == Range(Position(0, 0), Position(0, 0))
    ensures Test(Pattern.UnmockImport, text) ==>
      var i := Search(MatchTable(Pattern.UnmockImport, text), 0);
      var m := text[i..MatchAt(Pattern.UnmockImport, text, i).value];
      exists q :: 0 <= q <= i && IsAt(text, q, m) && (forall j :: 0 <= j < q ==> !IsAt(text, j, m))
        && r == LineSpan(text, LineOf(text, q))
  {
    var t := MatchTable(Pattern.UnmockImport, text);
    var i := Search(t, 0);
    if i < 0 then Range(Position(0, 0), Position(0, 0))
    else
      var m := text[i..t[i].value];
      assert IsAt(text, i, m);
      var rs := RangesFromTextAndMatch(text, [m], true);
      var q := IndexOf(text, m, 0);
      assert Offsets(text, [m], 0, 0)[0] == q;
      EntireLineRange(text, m, q);
      rs.value[0]
  }

  /** The unmock import range is the span of a line at or above the first unmock import. */
  lemma {:induction false} UnmockImportRangeIsAtOrAbove(text: string)
    requires Test(Pattern.UnmockImport, text)
    ensures UnmockJSImportLocation(text) == LineSpan(text, UnmockJSImportLocation(text).start.line)
    ensures UnmockJSImportLocation(text).start.line <= LineOf(text, Search(MatchTable(Pattern.UnmockImport, text), 0))
  {
    var i := Search(MatchTable(Pattern.UnmockImport, text), 0);
    var m := text[i..MatchAt(Pattern.UnmockImport, text, i).value];
    FirstOccurrenceLineAtOrAbove(text, i, m, UnmockJSImportLocation(text));
  }

  lemma {:induction false} FirstOccurrenceLineAtOrAbove(text: string, i: nat, m: string, r: Range)
    requires i <= |text|
    requires exists q ::
      && 0 <= q <= i && IsAt(text, q, m) && (forall j :: 0 <= j < q ==> !IsAt(text, j, m))
      && r == LineSpan(text, LineOf(text, q))
    ensures r == LineSpan(text, r.start.line) && r.start.line <= LineOf(text, i)
  {
    var q :| 0 <= q <= i && IsAt(text, q, m) && (forall j :: 0 <= j < q ==> !IsAt(text, j, m))
      && r == LineSpan(text, LineOf(text, q));
    LineOfMonotone(text, q, i);
  }

  /** `buildTypescriptUnmockActionObject(srcText)`: the two locators, and the language tag
      `typescript`, a tag the snippet functions recognise. */
  function BuildTypescriptUnmockActionObject(text: string): (a: InsertUnmockAction)
    ensures a.lang == "typescript"
    ensures IsJsLanguage(a.lang) && Utils.ImportStatement(a.lang) == Some(ImportText)
    ensures a.lastImportLocation == FindLastJSImport(text)
    ensures a.unmockImportLocation == UnmockJSImportLocation(text)
  {
    assert ToLower("typescript") == "typescript";
    InsertUnmockAction(FindLastJSImport(text), UnmockJSImportLocation(text), "typescript")
  }

  /** The ranges the providers compute for the detected calls, with the locator as
      written, are the spans of the lines of its offsets. */
  lemma {:induction false} DetectedRangesAsWritten(text: string)
    requires MatchJSRequestWithoutUnmock(text).Some?
    ensures RangesFromTextAndMatchAsWritten(text, MatchJSRequestWithoutUnmock(text).value, true) == Some(AsWrittenCallSpans(text))
  {
    var calls := MatchJSRequestWithoutUnmock(text).value;
    assert calls == MatchTexts(Call, text);
    AsWrittenRangesAreOffsetLines(text);
  }

  /** With the corrected locator the ranges of the detected calls are the call spans. */
  lemma {:induction false} DetectedRangesAreCallSpans(text: string)
    requires MatchJSRequestWithoutUnmock(text).Some?
    ensures RangesFromTextAndMatch(text, MatchJSRequestWithoutUnmock(text).value, true) == Some(CallSpans(text))
  {
    var calls := MatchJSRequestWithoutUnmock(text).value;
    assert calls == MatchTexts(Call, text);
    CallRangesAreCallLines(text);
  }

  /** `InsertUnmockHoverProvider.provideHover`: the action offered when exactly one
      detected range contains the position, the ranges coming from the locator as written. */
  function Hover(text: string, p: Position): (r: Option<InsertUnmockAction>)
    ensures r.Some? ==> r.value == BuildTypescriptUnmockActionObject(text)
  {
    match MatchJSRequestWithoutUnmock(text)
    case None => None
    case Some(calls) =>
      var ranges := RangesFromTextAndMatchAsWritten(text, calls, true).value;
      if |Containing(ranges, Range(p, p))| == 1 then Some(BuildTypescriptUnmockActionObject(text)) else None
  }

  /** The hover fires exactly when calls are detected and the position lies in the span of
      one located line and no other's. */
  lemma {:induction false} HoverFiresOnLoneCallLine(text: string, p: Position)
    ensures Hover(text, p).Some? <==>
      MatchJSRequestWithoutUnmock(text).Some? && exists k :: OnlyContainer(AsWrittenCallSpans(text), Range(p, p), k)
  {
    if MatchJSRequestWithoutUnmock(text).Some? {
      HoverOnDetectedCalls(text, p);
    }
  }

  lemma {:induction false} HoverOnDetectedCalls(text: string, p: Position)
    requires MatchJSRequestWithoutUnmock(text).Some?
    ensures Hover(text, p).Some? <==> exists k :: OnlyContainer(AsWrittenCallSpans(text), Range(p, p), k)
  {
    var spans := AsWrittenCallSpans(text);
    DetectedRangesAsWritten(text);
    assert Hover(text, p) == if |Containing(spans, Range(p, p))| == 1 then Some(BuildTypescriptUnmockActionObject(text)) else None;
    ContainingOne(spans, Range(p, p));
  }

  /** The hover as evidently intended: the same decision over the corrected locator. */
  function IntendedHover(text: string, p: Position): (r: Option<InsertUnmockAction>)
    ensures r.Some? ==> r.value == BuildTypescriptUnmockActionObject(text)
  {
    match MatchJSRequestWithoutUnmock(text)
    case None => None
    case Some(calls) =>
      var ranges := RangesFromTextAndMatch(text, calls, true).value;
      if |Containing(ranges, Range(p, p))| == 1 then Some(BuildTypescriptUnmockActionObject(text)) else None
  }

  /** The intended hover fires exactly when calls are detected and the position lies in the
      span of one call's line and no other's. */
  lemma {:induction false} IntendedHoverFiresOnLoneCallLine(text: string, p: Position)
    ensures IntendedHover(text, p).Some? <==>
      MatchJSRequestWithoutUnmock(text).Some? && exists k :: OnlyContainer(CallSpans(text), Range(p, p), k)
  {
    if MatchJSRequestWithoutUnmock(text).Some? {
      IntendedHoverOnDetectedCalls(text, p);
    }
  }

  lemma {:induction false} IntendedHoverOnDetectedCalls(text: string, p: Position)
    requires MatchJSRequestWithoutUnmock(text).Some?
    ensures IntendedHover(text, p).Some? <==> exists k :: OnlyContainer(CallSpans(text), Range(p, p), k)
  {
    var spans := CallSpans(text);
    DetectedRangesAreCallSpans(text);
    assert IntendedHover(text, p) == if |Containing(spans, Range(p, p))| == 1 then Some(BuildTypescriptUnmockActionObject(text)) else None;
    ContainingOne(spans, Range(p, p));
  }

  /** `TypeScriptInsertUnmockAction.provideCodeActions`: a quick fix when exactly one
      detected range contains the selection; its diagnostic covers that range. The ranges
      come from the locator as written. */
  function CodeAction(text: string, selection: Range): (r: Option<QuickFix>)
    ensures r.Some? ==> r.value.action == BuildTypescriptUnmockActionObject(text)
  {
    match MatchJSRequestWithoutUnmock(text)
    case None => None
    case Some(calls) =>
      var ranges := RangesFromTextAndMatchAsWritten(text, calls, true).value;
      var holding := Containing(ranges, selection);
      if |holding| == 1 then Some(QuickFix(BuildTypescriptUnmockActionObject(text), holding[0])) else None
  }

  /** The quick fix is offered exactly when calls are detected and one located line span,
      and no other, contains the selection; the diagnostic is that span. */
  lemma {:induction false} CodeActionFiresOnLoneCallLine(text: string, selection: Range)
    ensures CodeAction(text, selection).Some? <==>
      MatchJSRequestWithoutUnmock(text).Some? && exists k :: OnlyContainer(AsWrittenCallSpans(text), selection, k)
    ensures CodeAction(text, selection).Some? ==>
      exists k :: OnlyContainer(AsWrittenCallSpans(text), selection, k)
        && CodeAction(text, selection).value.diagnostic == AsWrittenCallSpans(text)[k]
  {
    if MatchJSRequestWithoutUnmock(text).Some? {
      CodeActionOnDetectedCalls(text, selection);
    }
  }

  lemma {:induction false} CodeActionOnDetectedCalls(text: string, selection: Range)
    requires MatchJSRequestWithoutUnmock(text).Some?
    ensures CodeAction(text, selection).Some? <==> exists k :: OnlyContainer(AsWrittenCallSpans(text), selection, k)
    ensures CodeAction(text, selection).Some? ==>
      exists k :: OnlyContainer(AsWrittenCallSpans(text), selection, k)
        && CodeAction(text, selection).value.diagnostic == AsWrittenCallSpans(text)[k]
  {
    var spans := AsWrittenCallSpans(text);
    var holding := Containing(spans, selection);
    DetectedRangesAsWritten(text);
    assert CodeAction(text, selection) == if |holding| == 1 then Some(QuickFix(BuildTypescriptUnmockActionObject(text), holding[0])) else None;
    ContainingOne(spans, selection);
    if |holding| == 1 {
      var k :| OnlyContainer(spans, selection, k);
      assert spans[k] in holding;
    }
  }

  /** The quick fix as evidently intended: the same decision over the corrected locator. */
  function IntendedCodeAction(text: string, selection: Range): (r: Option<QuickFix>)
    ensures r.Some? ==> r.value.action == BuildTypescriptUnmockActionObject(text)
  {
    match MatchJSRequestWithoutUnmock(text)
    case None => None
    case Some(calls) =>
      var ranges := RangesFromTextAndMatch(text, calls, true).value;
      var holding := Containing(ranges, selection);
      if |holding| == 1 then Some(QuickFix(BuildTypescriptUnmockActionObject(text), holding[0])) else None
  }

  /** The intended quick fix is offered exactly when calls are detected and one call's line
      span, and no other's, contains the selection; the diagnostic is that span. */
  lemma {:induction false} IntendedCodeActionFiresOnLoneCallLine(text: string, selection: Range)
    ensures IntendedCodeAction(text, selection).Some? <==>
      MatchJSRequestWithoutUnmock(text).Some? && exists k :: OnlyContainer(CallSpans(text), selection, k)
    ensures IntendedCodeAction(text, selection).Some? ==>
      exists k :: OnlyContainer(CallSpans(text), selection, k) && IntendedCodeAction(text, selection).value.diagnostic == CallSpans(text)[k]
  {
    if MatchJSRequestWithoutUnmock(text).Some? {
      IntendedCodeActionOnDetectedCalls(text, selection);
    }
  }

  lemma {:induction false} IntendedCodeActionOnDetectedCalls(text: string, selection: Range)
    requires MatchJSRequestWithoutUnmock(text).Some?
    ensures IntendedCodeAction(text, selection).Some? <==> exists k :: OnlyContainer(CallSpans(text), selection, k)
    ensures IntendedCodeAction(text, selection).Some? ==>
      exists k :: OnlyContainer(CallSpans(text), selection, k) && IntendedCodeAction(text, selection).value.diagnostic == CallSpans(text)[k]
  {
    var spans := CallSpans(text);
    var holding := Containing(spans, selection);
    DetectedRangesAreCallSpans(text);
    assert IntendedCodeAction(text, selection) == if |holding| == 1 then Some(QuickFix(BuildTypescriptUnmockActionObject(text), holding[0])) else None;
    ContainingOne(spans, selection);
    if |holding| == 1 {
      var k :| OnlyContainer(spans, selection, k);
      assert spans[k] in holding;
    }
  }

  /** `TypescriptInsertUnmockCodeLens.provideCodeLenses`: one lens on the first detected
      range, carrying the action. */
  function CodeLens(text: string): (r: Option<Lens>)
    ensures r.Some? <==> MatchJSRequestWithoutUnmock(text).Some?
    ensures r.Some? ==> r.value.arguments == [BuildTypescriptUnmockActionObject(text)]
  {
    match MatchJSRequestWithoutUnmock(text)
    case None => None
    case Some(calls) =>
      var ranges := RangesFromTextAndMatchAsWritten(text, calls, true).value;
      Some(Lens(ranges[0], [BuildTypescriptUnmockActionObject(text)]))
  }

  /** The lens sits on the span of the line of the first call: the first search of the
      locator starts at 0 whether as written or corrected. */
  lemma {:induction false} CodeLensOnFirstCallLine(text: string)
    requires CodeLens(text).Some?
    ensures |MatchAll(Call, text)| > 0
    ensures CodeLens(text).value.range == LineSpan(text, LineOf(text, MatchAll(Call, text)[0].start))
  {
    DetectedRangesAsWritten(text);
    FirstSpanAgrees(text);
  }

  /** With the locator as written, two identical first calls get the same range, so every
      position of that range lies in two ranges and the hover never fires there. */
  lemma {:induction false} AsWrittenRepeatedCallSilencesHover(text: string, p: Position)
    requires MatchJSRequestWithoutUnmock(text).Some?
    requires var calls := MatchJSRequestWithoutUnmock(text).value; |calls| >= 2 && calls[1] == calls[0]
    ensures var ranges := RangesFromTextAndMatchAsWritten(text, MatchJSRequestWithoutUnmock(text).value, true).value;
      ranges[1] == ranges[0] && (ranges[0].Contains(p) ==> |Containing(ranges, Range(p, p))| >= 2)
    ensures AsWrittenCallSpans(text)[0].Contains(p) ==> Hover(text, p).None?
  {
    var calls := MatchJSRequestWithoutUnmock(text).value;
    var ranges := RangesFromTextAndMatchAsWritten(text, calls, true).value;
    AsWrittenRepeatsFirstFind(text, calls);
    ContainingNone(ranges, Range(p, p));
    ContainingOne(ranges, Range(p, p));
    DetectedRangesAsWritten(text);
    ContainsPoint(ranges[0], p);
  }
}
