/** The insert command: the two snippet insertions it makes for an insert-unmock action,
    and what the detector says about the text once both are made. */
module InsertCommand {
  import opened StringUtils
  import opened Editor
  import opened Patterns
  import opened Utils
  import opened InsertUnmock
  import opened GotoMock

  /** A snippet insertion: the range it replaces and the text it writes there. */
  datatype Edit = Edit(at: Range, snippet: string)

  /** How a template literal renders an optional string: `undefined` when it is absent. */
  function TemplateText(v: Option<string>): (r: string)
    ensures v.Some? ==> r == v.value
    ensures v.None? ==> r == "undefined"
  {
    match v
    case Some(x) => x
    case None => "undefined"
  }

  /** `insertUnmockToTest(textEditor, edit, ...args)`: nothing without an argument;
      otherwise the import statement and a line feed over the unmock import location, then
      the test calls between two line feeds at column 0 two lines below the last import,
      one line for the import just written and one to land after the last import. */
  function InsertUnmockToTest(args: seq<InsertUnmockAction>): (edits: seq<Edit>)
    ensures |args| == 0 <==> |edits| == 0
    ensures |args| > 0 ==> |edits| == 2
    ensures |args| > 0 ==> edits[0].at == args[0].unmockImportLocation
    ensures |args| > 0 ==>
      var p := Position(args[0].lastImportLocation.line + 2, 0);
      edits[1].at == Range(p, p)
    ensures |args| > 0 && IsJsLanguage(args[0].lang) ==>
      edits[0].snippet == ImportText + "\n" && edits[1].snippet == "\n" + TestCallsText + "\n"
    ensures |args| > 0 && !IsJsLanguage(args[0].lang) ==>
      edits[0].snippet == "undefined\n" && edits[1].snippet == "\nundefined\n"
  {
    if |args| == 0 then []
    else
      var a := args[0];
      var line := a.lastImportLocation.line + 2;
      [ Edit(a.unmockImportLocation, TemplateText(Utils.ImportStatement(a.lang)) + "\n"),
        Edit(MakeRange(line, 0, line, 0), "\n" + TemplateText(TestCalls(a.lang)) + "\n") ]
  }

  /** The text after making `edits` one after the other. */
  function ApplyEdits(text: string, edits: seq<Edit>): string
    decreases |edits|
  {
    if |edits| == 0 then text else ApplyEdits(InsertOver(text, edits[0].at, edits[0].snippet), edits[1..])
  }

  /** The action the providers build makes the command write the import over the unmock
      import location and the test calls at column 0 two lines below the last import
      (`BuildTypescriptUnmockActionObject` says which locations those are). */
  lemma {:induction false} ProvidersActionInsertsSnippets(text: string)
    ensures
      var a := BuildTypescriptUnmockActionObject(text);
      var p := Position(a.lastImportLocation.line + 2, 0);
      InsertUnmockToTest([a]) == [Edit(a.unmockImportLocation, ImportText + "\n"), Edit(Range(p, p), "\n" + TestCallsText + "\n")]
  {
    TypescriptActionEdits(BuildTypescriptUnmockActionObject(text));
  }

  lemma {:induction false} TypescriptActionEdits(a: InsertUnmockAction)
    requires a.lang == "typescript"
    ensures
      var p := Position(a.lastImportLocation.line + 2, 0);
      InsertUnmockToTest([a]) == [Edit(a.unmockImportLocation, ImportText + "\n"), Edit(Range(p, p), "\n" + TestCallsText + "\n")]
  {
    assert ToLower("typescript") == "typescript";
  }

  /** The lens of the older provider invokes the command without an argument, so the
      command makes no edit. */
  lemma {:induction false} GotoLensCommandMakesNoEdit(text: string)
    requires GotoMockLens(text).Some?
    ensures InsertUnmockToTest(GotoMockLens(text).value.arguments) == []
  {
  }

  /** Making two edits is inserting the second over the result of the first. */
  lemma {:induction false} ApplyTwoEdits(text: string, first: Edit, second: Edit)
    ensures ApplyEdits(text, [first, second])
      == InsertOver(InsertOver(text, first.at, first.snippet), second.at, second.snippet)
  {
    var once := InsertOver(text, first.at, first.snippet);
    assert [first, second][1..] == [second];
    assert ApplyEdits(text, [first, second]) == ApplyEdits(once, [second]);
    assert [second][1..] == [];
    assert ApplyEdits(once, [second]) == ApplyEdits(InsertOver(once, second.at, second.snippet), []);
  }

  /** For a recognised language the command writes the import over the unmock import
      location, then the test calls at column 0 two lines below the last import. */
  lemma {:induction false} EditsOfRecognisedLanguage(text: string, action: InsertUnmockAction)
    requires IsJsLanguage(action.lang)
    ensures
      var p := Position(action.lastImportLocation.line + 2, 0);
      var mid := InsertOver(text, action.unmockImportLocation, ImportText + "\n");
      ApplyEdits(text, InsertUnmockToTest([action])) == InsertOver(mid, Range(p, p), "\n" + TestCallsText + "\n")
  {
    var p := Position(action.lastImportLocation.line + 2, 0);
    var first := Edit(action.unmockImportLocation, ImportText + "\n");
    var second := Edit(Range(p, p), "\n" + TestCallsText + "\n");
    assert InsertUnmockToTest([action]) == [first, second];
    ApplyTwoEdits(text, first, second);
  }

  /** For a recognised language the edited text is the text with the import written over
      the unmock import location, then split at the offset of column 0 two lines below the
      last import, with the test calls between two line feeds inserted there. */
  lemma {:induction false} EditedText(text: string, action: InsertUnmockAction) returns (mid: string, off: nat)
    requires IsJsLanguage(action.lang)
    ensures mid == InsertOver(text, action.unmockImportLocation, ImportText + "\n")
    ensures off == OffsetAt(mid, Position(action.lastImportLocation.line + 2, 0))
    ensures off <= |mid|
    ensures ApplyEdits(text, InsertUnmockToTest([action])) == mid[..off] + ("\n" + TestCallsText + "\n") + mid[off..]
  {
    var p := Position(action.lastImportLocation.line + 2, 0);
    mid := InsertOver(text, action.unmockImportLocation, ImportText + "\n");
    off := OffsetAt(mid, p);
    EditsOfRecognisedLanguage(text, action);
  }

  /** Round trip: once the test calls are inserted outside any comment, the detector finds
      `unmock(` in the stripped text and reports nothing. */
  lemma {:induction false} InsertedTestCallsSilenceDetector(text: string, action: InsertUnmockAction)
    requires IsJsLanguage(action.lang)
    requires
      var mid := InsertOver(text, action.unmockImportLocation, ImportText + "\n");
      var edited := ApplyEdits(text, InsertUnmockToTest([action]));
      Reaches(MatchTable(Comment, edited), 0, OffsetAt(mid, Position(action.lastImportLocation.line + 2, 0)))
    ensures MatchJSRequestWithoutUnmock(ApplyEdits(text, InsertUnmockToTest([action]))).None?
  {
    var mid, off := EditedText(text, action);
    var edited := ApplyEdits(text, InsertUnmockToTest([action]));
    var line := "\n" + TestCallsText;
    assert edited == mid[..off] + (line + "\n") + mid[off..];
    TestCallsLine();
    LineSurvivesCommentRemoval(edited, off, line);
    ContainsTransitive(RemoveJSComments(edited), line, 30, "unmock(");
    UnmockCallTest(RemoveJSComments(edited));
  }

  /** The inserted line holds `unmock(` and no slash. */
  lemma {:induction false} TestCallsLine()
    ensures IsAt("\n" + TestCallsText, 30, "unmock(")
    ensures '/' !in "\n" + TestCallsText
  {
    var line := "\n" + TestCallsText;
    TestCallsCallUnmock();
    assert line[30..37] == TestCallsText[29..36];
  }

  /** A slash-free text ending in a line feed, written at an offset the comment scan
      reaches, survives comment removal. */
  lemma {:induction false} LineSurvivesCommentRemoval(s: string, off: nat, line: string)
    requires '/' !in line && |line| > 0
    requires off + |line| < |s| && s[off..off + |line| + 1] == line + "\n"
    requires Reaches(MatchTable(Comment, s), 0, off)
    ensures Contains(RemoveJSComments(s), line)
  {
    var b := off + |line|;
    forall q | off <= q <= b
      ensures s[q] != '/'
    {
      assert s[q] == (line + "\n")[q - off];
    }
    NoCommentWithoutSlash(s, off, b);
    ReachedTextSurvives(MatchTable(Comment, s), s, off, b, KeepNewlines);
    assert s[off..b] == s[off..off + |line| + 1][..|line|];
  }

  /** Inserting over a text and a snippet that both lack a character gives a text that
      lacks it. */
  lemma {:induction false} InsertOverKeepsOut(text: string, at: Range, snippet: string, c: char)
    requires c !in text && c !in snippet
    ensures c !in InsertOver(text, at, snippet)
  {
  }

  /** The round trip for a text without slashes, which holds no comment at all. */
  lemma {:induction false} InsertedTestCallsSilenceDetectorWithoutSlashes(text: string, action: InsertUnmockAction)
    requires IsJsLanguage(action.lang) && '/' !in text
    ensures MatchJSRequestWithoutUnmock(ApplyEdits(text, InsertUnmockToTest([action]))).None?
  {
    var mid, off := EditedText(text, action);
    var edited := ApplyEdits(text, InsertUnmockToTest([action]));
    ImportTextHasNoSlash();
    InsertOverKeepsOut(text, action.unmockImportLocation, ImportText + "\n", '/');
    NoSlashBeforeInsertion(edited, mid, off, "\n" + TestCallsText + "\n");
    ReachesOverNoMatch(MatchTable(Comment, edited), 0, off);
    InsertedTestCallsSilenceDetector(text, action);
  }

  /** No comment starts before an insertion that begins with a line feed into a text
      without slashes. */
  lemma {:induction false} NoSlashBeforeInsertion(edited: string, mid: string, off: nat, ins: string)
    requires '/' !in mid && off <= |mid| && |ins| > 0 && ins[0] == '\n'
    requires edited == mid[..off] + ins + mid[off..]
    ensures NoMatchBetween(MatchTable(Comment, edited), 0, off)
  {
    forall q | 0 <= q <= off
      ensures edited[q] != '/'
    {
      if q < off {
        assert edited[q] == mid[q];
      } else {
        assert edited[q] == ins[0];
      }
    }
    NoCommentWithoutSlash(edited, 0, off);
  }

  lemma {:induction false} ImportTextHasNoSlash()
    ensures '/' !in ImportText
  {
    ImportClauseLacksSlash();
    assert ImportText == ImportClause + [';'];
  }
}
