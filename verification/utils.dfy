/** The pure helpers of the extension's utility file: the snippets inserted for a
    language, comment and string removal, counting, and turning found texts into editor
    ranges. */
module Utils {
  import opened StringUtils
  import opened Editor
  import opened Patterns

  /** The import statement the extension inserts, before its closing semicolon. */
  const ImportClause: string := "import { unmock, kcomnu } from \"unmock\""

  const ImportText: string := ImportClause + ";"

  const BeforeEachLine: string := "beforeEach(async () => await unmock());"

  const AfterEachLine: string := "afterEach(() => kcomnu());"

  /** The two test hooks the extension inserts, one per line. */
  const TestCallsText: string := BeforeEachLine + "\n" + AfterEachLine

  /** The language tags the extension knows, compared after lower-casing. */
  predicate IsJsLanguage(lang: string) {
    ToLower(lang) == "typescript" || ToLower(lang) == "javascript"
  }

  /** `getImportStatement(lang)`: `undefined` is `None`. */
  function ImportStatement(lang: string): (r: Option<string>)
    ensures r.Some? <==> IsJsLanguage(lang)
    ensures r.Some? ==> r.value == ImportText
  {
    if IsJsLanguage(lang) then Some(ImportText) else None
  }

  /** `getTestCalls(lang)`: `undefined` is `None`. */
  function TestCalls(lang: string): (r: Option<string>)
    ensures r.Some? <==> IsJsLanguage(lang)
    ensures r.Some? ==> r.value == TestCallsText
  {
    if IsJsLanguage(lang) then Some(TestCallsText) else None
  }

  /** The tags are recognised whatever their letter case. */
  lemma {:induction false} LanguageIgnoresCase(lang: string)
    ensures IsJsLanguage(ToLower(lang)) <==> IsJsLanguage(lang)
    ensures IsJsLanguage("TypeScript") && IsJsLanguage("JavaScript") && !IsJsLanguage("python")
  {
    assert ToLower(ToLower(lang)) == ToLower(lang);
    assert ToLower("TypeScript") == "typescript";
    assert ToLower("JavaScript") == "javascript";
    assert ToLower("python")[0] == 'p';
  }

  /** The inserted import is an import statement and an unmock import, both of which
      match it whole. */
  lemma {:induction false} ImportTextIsRecognised()
    ensures MatchAt(Pattern.ImportStatement, ImportText, 0) == Some(|ImportText|)
    ensures MatchAt(Pattern.UnmockImport, ImportText, 0) == Some(|ImportText|)
  {
    ImportClauseWords();
    ImportClauseCharacters();
    ClauseIsImportStatement(ImportClause);
    ClauseIsUnmockImport(ImportClause, 31);
  }

  lemma {:induction false} ImportClauseWords()
    ensures IsAt(ImportClause, 0, "import ") && IsAt(ImportClause, 31, "\"unmock\"")
  {
  }

  lemma {:induction false} ImportClauseCharacters()
    ensures ';' !in ImportClause && '\n' !in ImportClause && '\r' !in ImportClause
    ensures (0x2028 as char) !in ImportClause && (0x2029 as char) !in ImportClause
  {
    ImportClauseLacks(';');
    ImportClauseLacks('\n');
    ImportClauseLacks('\r');
    ImportClauseLacks(0x2028 as char);
    ImportClauseLacks(0x2029 as char);
  }

  lemma {:induction false} ImportClauseLacksSlash()
    ensures '/' !in ImportClause
  {
  }

  /** Every character of the clause is printable ASCII other than a semicolon. */
  lemma {:induction false} ImportClauseLacks(ch: char)
    requires ch == ';' || ch < ' ' || ch > '~'
    ensures ch !in ImportClause
  {
  }

  /** `import `, at least one more character and no semicolon, then a semicolon. */
  lemma {:induction false} ClauseIsImportStatement(c: string)
    requires IsAt(c, 0, "import ") && |c| > 7 && ';' !in c
    ensures MatchAt(Pattern.ImportStatement, c + ";", 0) == Some(|c| + 1)
  {
    var s := c + ";";
    IsAtChar(s, ';');
    assert s[..7] == c[..7];
    assert forall j :: 0 <= j < |c| ==> s[j] == c[j] && c[j] in c;
    assert forall j :: 7 <= j < |c| ==> !IsAt(s, j, ";");
    assert IsAt(s, |c|, ";");
    assert IndexFrom(s, ";", 7) == |c|;
  }

  /** `import ` and a line holding `"unmock"`, then a semicolon. */
  lemma {:induction false} ClauseIsUnmockImport(c: string, q: nat)
    requires IsAt(c, 0, "import ") && 7 <= q && IsAt(c, q, "\"unmock\"")
    requires '\n' !in c && '\r' !in c && (0x2028 as char) !in c && (0x2029 as char) !in c
    ensures MatchAt(Pattern.UnmockImport, c + ";", 0) == Some(|c| + 1)
  {
    var s := c + ";";
    assert s[..7] == c[..7];
    assert s[q..q + 8] == c[q..q + 8];
    LineEndWithoutTerminators(s, 7);
    assert IsAt(s, q, "\"unmock\"") && q + 8 <= LineEnd(s, 7);
  }

  lemma {:induction false} LineEndWithoutTerminators(s: string, k: nat)
    requires k <= |s|
    requires '\n' !in s && '\r' !in s && (0x2028 as char) !in s && (0x2029 as char) !in s
    ensures LineEnd(s, k) == |s|
  {
  }

  /** The inserted test calls call `unmock` and contain no slash, so they hold no comment. */
  lemma {:induction false} TestCallsCallUnmock()
    ensures IsAt(TestCallsText, 29, "unmock(")
    ensures '/' !in TestCallsText
  {
    assert IsAt(BeforeEachLine, 29, "unmock(");
    assert TestCallsText[29..36] == BeforeEachLine[29..36];
    assert '/' !in BeforeEachLine && '/' !in AfterEachLine;
  }

  /** `removeJSCommentsFromSourceText`: every comment becomes the line feeds it held. */
  function RemoveJSComments(src: string): (r: string)
    ensures |r| <= |src|
    ensures Count(r, '\n') == Count(src, '\n')
  {
    CommentRemovalKeepsNewlines(src);
    ReplaceAll(Comment, src, KeepNewlines)
  }

  /** `countInString(str, substr)`: the number of matches of a global expression spelled
      `substr`, for a `substr` without metacharacters. These are the occurrences found left
      to right without overlapping; an empty `substr` matches at every offset. */
  function CountInString(str: string, substr: string): (n: nat)
    ensures |substr| == 0 ==> n == |str| + 1
    ensures |substr| > 0 ==> n * |substr| <= |str|
  {
    if |substr| == 0 then |str| + 1 else CountFrom(str, substr, 0)
  }

  function CountFrom(s: string, needle: string, k: nat): (n: nat)
    requires |needle| > 0 && k <= |s|
    ensures n * |needle| <= |s| - k
    decreases |s| - k
  {
    if k + |needle| > |s| then 0
    else if IsAt(s, k, needle) then 1 + CountFrom(s, needle, k + |needle|)
    else CountFrom(s, needle, k + 1)
  }

  /** Counting a one-character text counts that character. */
  lemma {:induction false} CountInStringOfChar(s: string, c: char)
    ensures CountInString(s, [c]) == Count(s, c)
  {
    CountFromChar(s, c, 0);
    assert s[0..] == s;
  }

  lemma {:induction false} CountFromChar(s: string, c: char, k: nat)
    requires k <= |s|
    ensures CountFrom(s, [c], k) == Count(s[k..], c)
    decreases |s| - k
  {
    if k < |s| {
      CountFromChar(s, c, k + 1);
      IsAtChar(s, c);
      assert s[k..][1..] == s[k + 1..];
    }
  }

  /** The count is zero exactly when the text does not occur. */
  lemma {:induction false} CountInStringZero(s: string, needle: string)
    requires |needle| > 0
    ensures CountInString(s, needle) == 0 <==> !Contains(s, needle)
  {
    CountFromZero(s, needle, 0);
  }

  lemma {:induction false} CountFromZero(s: string, needle: string, k: nat)
    requires |needle| > 0 && k <= |s|
    ensures CountFrom(s, needle, k) == 0 <==> forall j :: k <= j ==> !IsAt(s, j, needle)
    decreases |s| - k
  {
    if k + |needle| <= |s| && !IsAt(s, k, needle) {
      CountFromZero(s, needle, k + 1);
    }
  }

  /** `removeStringsFromSourceText`: every quoted literal is deleted. */
  function RemoveStrings(src: string): (r: string)
    ensures |r| <= |src|
  {
    ReplaceAll(QuotedString, src, Delete)
  }

  /** What `getRangeFromTextAndMatch` builds for `needle` found at `pos` (-1 when not
      found): the line of `pos` (the first line when not found), either from its
      indentation to its end or around the first occurrence of `needle` in it. A needle
      absent from its line makes the host's range constructor throw: `None`. */
  function NeedleRange(text: string, needle: string, pos: int, entireLine: bool): (r: Option<Range>)
    requires pos == -1 || IsAt(text, pos, needle)
    ensures r.Some? ==> r.value.WellFormed() && r.value.IsSingleLine()
    ensures r.Some? ==> r.value.start.line == (if pos < 0 then 0 else LineOf(text, pos))
    ensures entireLine ==> r.Some?
    ensures entireLine ==> r.value.start.character == IndentWidth(Lines(text)[r.value.start.line])
                           && r.value.end.character == |Lines(text)[r.value.start.line]|
    ensures !entireLine && r.Some? ==>
      IsAt(Lines(text)[r.value.start.line], r.value.start.character, needle)
      && r.value.end.character == r.value.start.character + |needle|
      && forall j :: 0 <= j < r.value.start.character ==> !IsAt(Lines(text)[r.value.start.line], j, needle)
    ensures !entireLine && r.None? ==> !Contains(Lines(text)[if pos < 0 then 0 else LineOf(text, pos)], needle)
  {
    var ln := if pos < 0 then 0 else LineOf(text, pos);
    var line := Lines(text)[ln];
    if entireLine then
      Some(MakeRange(ln, IndentWidth(line), ln, |line|))
    else
      IndexOfContains(line, needle);
      var f := IndexOf(line, needle, 0);
      if f < 0 then None else Some(MakeRange(ln, f, ln, f + |needle|))
  }

  /** A needle without line feeds, found in the text, is found again on its line, no later
      than where it was found: the narrow range exists. */
  lemma {:induction false} FoundNeedleHasNarrowRange(text: string, needle: string, pos: nat)
    requires IsAt(text, pos, needle) && '\n' !in needle
    ensures NeedleRange(text, needle, pos, false).Some?
    ensures NeedleRange(text, needle, pos, false).value.start.character <= |AfterLast(text[..pos], '\n')|
  {
    NeedleOnItsLine(text, pos, needle);
    var line := Lines(text)[LineOf(text, pos)];
    var col := |AfterLast(text[..pos], '\n')|;
    assert col <= |line| - |needle|;
    assert Contains(line, needle);
  }

  /** The ranges of `needles` found at `offsets`; `None` when one of them throws. */
  function RangesAt(text: string, needles: seq<string>, offsets: seq<int>, entireLine: bool): (r: Option<seq<Range>>)
    requires |offsets| == |needles|
    requires forall k :: 0 <= k < |needles| ==> offsets[k] == -1 || IsAt(text, offsets[k], needles[k])
    ensures r.Some? ==> |r.value| == |needles|
    ensures r.Some? ==> forall k :: 0 <= k < |needles| ==>
      NeedleRange(text, needles[k], offsets[k], entireLine) == Some(r.value[k])
    ensures r.None? <==> exists k :: 0 <= k < |needles| && NeedleRange(text, needles[k], offsets[k], entireLine).None?
    ensures entireLine ==> r.Some?
  {
    if |needles| == 0 then Some([])
    else
      var first := NeedleRange(text, needles[0], offsets[0], entireLine);
      var rest := RangesAt(text, needles[1..], offsets[1..], entireLine);
      if first.None? || rest.None? then
        assert rest.None? ==> forall k :: 1 <= k < |needles| ==> needles[1..][k - 1] == needles[k];
        None
      else
        var r := [first.value] + rest.value;
        assert forall k :: 1 <= k < |needles| ==> r[k] == rest.value[k - 1];
        Some(r)
  }

  /** Where `getRangeFromTextAndMatch` searches for each needle as written: every search
      starts at the previous start plus the offset just found. */
  function OffsetsAsWritten(text: string, needles: seq<string>, k: nat, last: int): (ps: seq<int>)
    requires k <= |needles|
    ensures |ps| == |needles| - k
    ensures forall j :: 0 <= j < |ps| ==> ps[j] == -1 || IsAt(text, ps[j], needles[k + j])
    decreases |needles| - k
  {
    if k == |needles| then []
    else
      var pos := IndexOf(text, needles[k], last);
      [pos] + OffsetsAsWritten(text, needles, k + 1, last + pos)
  }

  /** Where each needle is found when every search starts just after the previous find, as
      the accumulation is evidently meant to do. */
  function Offsets(text: string, needles: seq<string>, k: nat, last: int): (ps: seq<int>)
    requires k <= |needles|
    ensures |ps| == |needles| - k
    ensures forall j :: 0 <= j < |ps| ==> ps[j] == -1 || IsAt(text, ps[j], needles[k + j])
    decreases |needles| - k
  {
    if k == |needles| then []
    else
      var pos := IndexOf(text, needles[k], last);
      [pos] + Offsets(text, needles, k + 1, if pos < 0 then last else pos + |needles[k]|)
  }

  /** `getRangeFromTextAndMatch(srcText, searchFor, entireLine)` as written. Every needle
      is assumed to occur in the text. */
  function RangesFromTextAndMatchAsWritten(text: string, needles: seq<string>, entireLine: bool): (r: Option<seq<Range>>)
    requires forall k :: 0 <= k < |needles| ==> Contains(text, needles[k])
    ensures r.Some? ==> |r.value| == |needles|
    ensures entireLine ==> r.Some?
  {
    RangesAt(text, needles, OffsetsAsWritten(text, needles, 0, 0), entireLine)
  }

  /** `getRangeFromTextAndMatch(srcText, searchFor, entireLine)` with each search starting
      after the previous find. Every needle is assumed to occur in the text. */
  function RangesFromTextAndMatch(text: string, needles: seq<string>, entireLine: bool): (r: Option<seq<Range>>)
    requires forall k :: 0 <= k < |needles| ==> Contains(text, needles[k])
    ensures r.Some? ==> |r.value| == |needles|
    ensures r.Some? ==> forall k :: 0 <= k < |needles| ==> r.value[k].WellFormed() && r.value[k].IsSingleLine()
    ensures entireLine ==> r.Some?
  {
    RangesAt(text, needles, Offsets(text, needles, 0, 0), entireLine)
  }

  /** As written, a needle repeated right after the first one is found again where the
      first was: the second search starts at the first find itself. */
  lemma {:induction false} AsWrittenRepeatsFirstFind(text: string, needles: seq<string>)
    requires |needles| >= 2 && needles[1] == needles[0] && Contains(text, needles[0])
    ensures OffsetsAsWritten(text, needles, 0, 0)[1] == OffsetsAsWritten(text, needles, 0, 0)[0] >= 0
  {
    IndexOfContains(text, needles[0]);
    var p := IndexOf(text, needles[0], 0);
    assert OffsetsAsWritten(text, needles, 0, 0)[1] == OffsetsAsWritten(text, needles, 1, p)[0];
  }

  /** The text of the repeated-call counterexample below. */
  const RepeatedText: string := "axios.get(" + "\n" + "axios.get("
  const RepeatedCalls: seq<string> := ["axios.get(", "axios.get("]

  lemma {:induction false} RepeatedOccurrences()
    ensures IndexOf(RepeatedText, RepeatedCalls[0], 0) == 0
    ensures IndexOf(RepeatedText, RepeatedCalls[1], 0) == 0
    ensures IndexOf(RepeatedText, RepeatedCalls[1], 10) == 11
  {
    var n := RepeatedCalls[0];
    var text := RepeatedText;
    assert text == "" + n + ("\n" + n);
    IsAtMiddle("", n, "\n" + n);
    assert text == (n + "\n") + n + "";
    IsAtMiddle(n + "\n", n, "");
    FoundFirstAt(text, n, 0, 0);
    FoundFirstAt(text, n, 10, 11);
  }

  /** Two identical calls on two lines: as written both are located on the first line, the
      corrected locator puts each on its own line. */
  lemma {:induction false} RepeatedCallCounterexample()
    ensures OffsetsAsWritten(RepeatedText, RepeatedCalls, 0, 0) == [0, 0]
    ensures Offsets(RepeatedText, RepeatedCalls, 0, 0) == [0, 11]
  {
    var text, ns := RepeatedText, RepeatedCalls;
    RepeatedOccurrences();
    assert OffsetsAsWritten(text, ns, 1, 0) == [0] + OffsetsAsWritten(text, ns, 2, 0);
    assert OffsetsAsWritten(text, ns, 0, 0) == [0] + OffsetsAsWritten(text, ns, 1, 0);
    assert Offsets(text, ns, 1, 10) == [11] + Offsets(text, ns, 2, 21);
    assert Offsets(text, ns, 0, 0) == [0] + Offsets(text, ns, 1, 10);
  }

  /** An occurrence of a call text is a match of the call pattern. */
  lemma {:induction false} CallTextOccurrenceMatches(s: string, q: nat, m: string)
    ensures IsAt(s, q, m) && IsCallText(m) ==> MatchAt(Call, s, q).Some?
  {
    if IsAt(s, q, m) && IsCallText(m) {
      CallAtMeansCallText(s, q, q + |m|);
    }
  }

  /** The corrected locator, given the texts of the call matches, finds each one where the
      global match found it. */
  lemma {:induction false} OffsetsFindMatches(text: string)
    ensures |Offsets(text, MatchTexts(Call, text), 0, 0)| == |MatchAll(Call, text)|
    ensures forall k :: 0 <= k < |MatchAll(Call, text)| ==>
      Offsets(text, MatchTexts(Call, text), 0, 0)[k] == MatchAll(Call, text)[k].start
  {
    var ms := MatchAll(Call, text);
    var ns := MatchTexts(Call, text);
    forall j | 0 <= j < |ms|
      ensures FoundAfterPrevious(text, ns, ms, j)
    {
      NextMatchIsFirstOccurrence(text, j, if j == 0 then 0 else ms[j - 1].end);
    }
    OffsetsFollow(text, ns, ms, 0, 0);
    assert ms[0..] == ms;
  }

  /** The start offsets of `ms`. */
  function Starts(ms: seq<Match>): (r: seq<int>)
    ensures |r| == |ms|
    ensures forall i :: 0 <= i < |ms| ==> r[i] == ms[i].start
  {
    if |ms| == 0 then [] else [ms[0].start] + Starts(ms[1..])
  }

  /** Needle `j` is first found, from the end of match `j - 1`, at the start of match `j`,
      and spans that match. */
  predicate FoundAfterPrevious(text: string, ns: seq<string>, ms: seq<Match>, j: nat)
    requires |ns| == |ms| && j < |ms|
  {
    IndexOf(text, ns[j], if j == 0 then 0 else ms[j - 1].end) == ms[j].start
    && ms[j].start + |ns[j]| == ms[j].end
  }

  /** When each needle is first found, from the end of the previous one, where `ms` says,
      the corrected locator reports the starts of `ms`. */
  lemma {:induction false} OffsetsFollow(text: string, ns: seq<string>, ms: seq<Match>, k: nat, last: nat)
    requires |ns| == |ms| && k <= |ms|
    requires last == if k == 0 then 0 else ms[k - 1].end
    requires forall j :: 0 <= j < |ms| ==> FoundAfterPrevious(text, ns, ms, j)
    ensures Offsets(text, ns, k, last) == Starts(ms[k..])
    decreases |ms| - k
  {
    if k < |ms| {
      assert FoundAfterPrevious(text, ns, ms, k);
      var e := ms[k].end;
      OffsetsFollow(text, ns, ms, k + 1, e);
      OffsetsStep(text, ns, k, last, ms[k].start, e);
      assert ms[k..][1..] == ms[k + 1..];
    }
  }

  /** One step of the corrected locator: the needle found at `pos`, ending at `e`. */
  lemma {:induction false} OffsetsStep(text: string, needles: seq<string>, k: nat, last: nat, pos: nat, e: nat)
    requires k < |needles|
    requires IndexOf(text, needles[k], last) == pos && pos + |needles[k]| == e
    ensures Offsets(text, needles, k, last) == [pos] + Offsets(text, needles, k + 1, e)
  {
  }

  /** The text of the next call match does not occur between the previous match's end and
      its own start. */
  lemma {:induction false} NextMatchIsFirstOccurrence(text: string, k: nat, last: nat)
    requires k < |MatchAll(Call, text)|
    requires last == if k == 0 then 0 else MatchAll(Call, text)[k - 1].end
    ensures IndexOf(text, MatchTexts(Call, text)[k], last) == MatchAll(Call, text)[k].start
    ensures MatchAll(Call, text)[k].start + |MatchTexts(Call, text)[k]| == MatchAll(Call, text)[k].end
  {
    var ms := MatchAll(Call, text);
    var m := ms[k];
    var n := text[m.start..m.end];
    assert MatchTexts(Call, text)[k] == n;
    MatchTextOccurs(Call, text, k);
    CallAtMeansCallText(text, m.start, m.end);
    assert NoMatchBetween(MatchTable(Call, text), last, m.start);
    FirstOccurrenceAfterGap(text, n, last, m.start);
  }

  /** A call text occurring at `b`, with no call match starting in `[a, b)`, is first found
      from `a` at `b`. */
  lemma {:induction false} FirstOccurrenceAfterGap(text: string, n: string, a: nat, b: nat)
    requires IsCallText(n) && IsAt(text, b, n) && a <= b
    requires NoMatchBetween(MatchTable(Call, text), a, b)
    ensures IndexOf(text, n, a) == b
  {
    forall q | a <= q < b
      ensures !IsAt(text, q, n)
    {
      CallTextOccurrenceMatches(text, q, n);
    }
  }

  /** The whole-line range of line `ln`: from its indentation to its end. */
  function LineSpan(text: string, ln: nat): (r: Range)
    requires ln < |Lines(text)|
    ensures r.WellFormed() && r.IsSingleLine() && r.start.line == ln
    ensures r.start.character == IndentWidth(Lines(text)[ln]) && r.end.character == |Lines(text)[ln]|
  {
    Range(Position(ln, IndentWidth(Lines(text)[ln])), Position(ln, |Lines(text)[ln]|))
  }

  /** A found needle's whole-line range is the span of the line it was found on. */
  lemma {:induction false} EntireLineRange(text: string, needle: string, pos: nat)
    requires IsAt(text, pos, needle)
    ensures NeedleRange(text, needle, pos, true) == Some(LineSpan(text, LineOf(text, pos)))
  {
  }

  /** The span of the line of every call match, in order: a reference for the ranges the
      providers filter. */
  function CallSpans(text: string): (spans: seq<Range>)
    ensures |spans| == |MatchAll(Call, text)|
    ensures forall k :: 0 <= k < |spans| ==> spans[k] == LineSpan(text, LineOf(text, MatchAll(Call, text)[k].start))
  {
    var ms := MatchAll(Call, text);
    seq(|ms|, k requires 0 <= k < |ms| => LineSpan(text, LineOf(text, ms[k].start)))
  }

  /** Given the texts of the call matches, the corrected locator gives each call the span
      of the line its match starts on. */
  lemma {:induction false} CallRangesAreCallLines(text: string)
    ensures forall k :: 0 <= k < |MatchTexts(Call, text)| ==> Contains(text, MatchTexts(Call, text)[k])
    ensures RangesFromTextAndMatch(text, MatchTexts(Call, text), true).Some?
    ensures RangesFromTextAndMatch(text, MatchTexts(Call, text), true).value == CallSpans(text)
  {
    var ms := MatchAll(Call, text);
    var ns := MatchTexts(Call, text);
    forall k | 0 <= k < |ns|
      ensures IsAt(text, ms[k].start, ns[k])
    {
    }
    OffsetsFindMatches(text);
    var rs := RangesFromTextAndMatch(text, ns, true).value;
    forall k | 0 <= k < |ms|
      ensures rs[k] == LineSpan(text, LineOf(text, ms[k].start))
    {
      EntireLineRange(text, ns[k], ms[k].start);
    }
    assert rs == CallSpans(text);
  }

  /** The line an offset of the locator stands for: its own line, or the first line when
      the needle was not found, since `substr(0, -1)` is empty. */
  function OffsetLine(text: string, pos: int): (ln: nat)
    requires pos <= |text|
    ensures ln < |Lines(text)|
  {
    if pos < 0 then
      assert LineOf(text, 0) < |Lines(text)|;
      0
    else LineOf(text, pos)
  }

  /** The whole-line spans of the lines where the locator as written finds the call texts,
      in order: a reference for the ranges the providers filter. */
  function AsWrittenCallSpans(text: string): (spans: seq<Range>)
    ensures |spans| == |MatchAll(Call, text)|
  {
    var os := OffsetsAsWritten(text, MatchTexts(Call, text), 0, 0);
    seq(|os|, k requires 0 <= k < |os| => LineSpan(text, OffsetLine(text, os[k])))
  }

  /** Given the texts of the call matches, the locator as written gives each call the span
      of the line of the offset it computed for it, the first line when that is -1. */
  lemma {:induction false} AsWrittenRangesAreOffsetLines(text: string)
    ensures forall k :: 0 <= k < |MatchTexts(Call, text)| ==> Contains(text, MatchTexts(Call, text)[k])
    ensures RangesFromTextAndMatchAsWritten(text, MatchTexts(Call, text), true) == Some(AsWrittenCallSpans(text))
  {
    var ms := MatchAll(Call, text);
    var ns := MatchTexts(Call, text);
    forall k | 0 <= k < |ns|
      ensures IsAt(text, ms[k].start, ns[k])
    {
    }
    var os := OffsetsAsWritten(text, ns, 0, 0);
    var rs := RangesFromTextAndMatchAsWritten(text, ns, true).value;
    var spans := AsWrittenCallSpans(text);
    forall k | 0 <= k < |ns|
      ensures rs[k] == spans[k]
    {
      assert NeedleRange(text, ns[k], os[k], true) == Some(rs[k]);
      if os[k] >= 0 {
        EntireLineRange(text, ns[k], os[k]);
      }
    }
    assert rs == spans;
  }

  /** The first call is located alike by the locator as written and by the corrected one. */
  lemma {:induction false} FirstSpanAgrees(text: string)
    requires |MatchAll(Call, text)| > 0
    ensures AsWrittenCallSpans(text)[0] == CallSpans(text)[0]
  {
    var ns := MatchTexts(Call, text);
    OffsetsFindMatches(text);
    assert OffsetsAsWritten(text, ns, 0, 0)[0] == IndexOf(text, ns[0], 0) == Offsets(text, ns, 0, 0)[0];
  }

  /** A needle is first found from `from` at `r` when it occurs there and its first character
      does not occur in between. */
  lemma {:induction false} FoundFirstAt(s: string, n: string, from: nat, r: nat)
    requires from <= r && IsAt(s, r, n) && |n| > 0
    requires forall j :: from <= j < r ==> s[j] != n[0]
    ensures IndexOf(s, n, from) == r
  {
    var x := IndexOf(s, n, from);
    assert x != -1 && x <= r;
    assert s[x..x + |n|][0] == n[0];
  }

  /** The middle of a concatenation occurs where the first part ends. */
  lemma {:induction false} IsAtMiddle(a: string, b: string, c: string)
    ensures IsAt(a + b + c, |a|, b)
  {
    assert (a + b + c)[|a|..|a| + |b|] == b;
  }

  /** A needle that no longer fits after `from` is not found. */
  lemma {:induction false} NotFoundAfter(s: string, n: string, from: nat)
    requires |s| < from + |n| && from <= |s|
    ensures IndexOf(s, n, from) == -1
  {
  }

  /** The text of the three-call counterexample below. */
  const OvershootText: string := "          " + "axios.get(" + "\n" + "b.put(" + "\n" + "c.post("
  const OvershootCalls: seq<string> := ["axios.get(", "b.put(", "c.post("]

  lemma {:induction false} OvershootOccurrences()
    ensures |OvershootText| == 35
    ensures IndexOf(OvershootText, OvershootCalls[0], 0) == 10
    ensures IndexOf(OvershootText, OvershootCalls[1], 10) == 21
    ensures IndexOf(OvershootText, OvershootCalls[1], 20) == 21
    ensures IndexOf(OvershootText, OvershootCalls[2], 27) == 28
    ensures IndexOf(OvershootText, OvershootCalls[2], 31) == -1
  {
    var text, ns := OvershootText, OvershootCalls;
    var pre, mid := "          ", "\n" + "b.put(" + "\n";
    assert text == pre + ns[0] + (mid + ns[2]);
    IsAtMiddle(pre, ns[0], mid + ns[2]);
    assert text == (pre + ns[0] + "\n") + ns[1] + ("\n" + ns[2]);
    IsAtMiddle(pre + ns[0] + "\n", ns[1], "\n" + ns[2]);
    assert text == (pre + ns[0] + mid) + ns[2] + "";
    IsAtMiddle(pre + ns[0] + mid, ns[2], "");
    FoundFirstAt(text, ns[0], 0, 10);
    FoundFirstAt(text, ns[1], 10, 21);
    FoundFirstAt(text, ns[1], 20, 21);
    FoundFirstAt(text, ns[2], 27, 28);
    NotFoundAfter(text, ns[2], 31);
  }

  /** As written, the second search starts past the second call, at 10 + 21, and the third
      call, at 28, is not found. */
  lemma {:induction false} OvershootAsWritten()
    ensures OffsetsAsWritten(OvershootText, OvershootCalls, 0, 0) == [10, 21, -1]
  {
    var text, ns := OvershootText, OvershootCalls;
    OvershootOccurrences();
    assert OffsetsAsWritten(text, ns, 2, 31) == [-1] + OffsetsAsWritten(text, ns, 3, 30);
    assert OffsetsAsWritten(text, ns, 1, 10) == [21] + OffsetsAsWritten(text, ns, 2, 31);
    assert OffsetsAsWritten(text, ns, 0, 0) == [10] + OffsetsAsWritten(text, ns, 1, 10);
  }

  lemma {:induction false} OvershootCorrected()
    ensures Offsets(OvershootText, OvershootCalls, 0, 0) == [10, 21, 28]
  {
    var text, ns := OvershootText, OvershootCalls;
    OvershootOccurrences();
    assert Offsets(text, ns, 2, 27) == [28] + Offsets(text, ns, 3, 35);
    assert Offsets(text, ns, 1, 20) == [21] + Offsets(text, ns, 2, 27);
    assert Offsets(text, ns, 0, 0) == [10] + Offsets(text, ns, 1, 20);
  }

  lemma {:induction false} OvershootThirdLine()
    ensures LineOf(OvershootText, 28) == 2
  {
    var a, b := "          " + "axios.get(" + "\n", "b.put(" + "\n";
    assert OvershootText[..28] == a + b;
    CountAppend(a, b, '\n');
    CountAppend("          " + "axios.get(", "\n", '\n');
    CountAppend("b.put(", "\n", '\n');
  }

  /** Three distinct calls on three lines, the first one indented: as written the third call
      is not found and so is given the first line; the corrected locator finds it on the
      third line. */
  lemma {:induction false} ThirdCallOvershootCounterexample()
    ensures OffsetsAsWritten(OvershootText, OvershootCalls, 0, 0)[2] == -1
    ensures OffsetLine(OvershootText, OffsetsAsWritten(OvershootText, OvershootCalls, 0, 0)[2]) == 0
    ensures Offsets(OvershootText, OvershootCalls, 0, 0)[2] == 28
    ensures OffsetLine(OvershootText, Offsets(OvershootText, OvershootCalls, 0, 0)[2]) == 2
  {
    OvershootAsWritten();
    OvershootCorrected();
    OvershootThirdLine();
  }

  /** The ranges that contain `target`: `ranges.filter(r => r.contains(target))`, a position
      being the empty range at it. */
  function Containing(ranges: seq<Range>, target: Range): (r: seq<Range>)
    ensures |r| <= |ranges|
    ensures forall k :: 0 <= k < |r| ==> r[k] in ranges && r[k].ContainsRange(target)
    ensures forall k :: 0 <= k < |ranges| && ranges[k].ContainsRange(target) ==> ranges[k] in r
  {
    if |ranges| == 0 then []
    else (if ranges[0].ContainsRange(target) then [ranges[0]] else []) + Containing(ranges[1..], target)
  }

  /** Containing the empty range at a position is containing the position. */
  lemma {:induction false} ContainsPoint(r: Range, p: Position)
    ensures r.ContainsRange(Range(p, p)) <==> r.Contains(p)
  {
  }

  lemma {:induction false} ContainingSkips(ranges: seq<Range>, target: Range, i: nat)
    requires i <= |ranges|
    requires forall j :: 0 <= j < i ==> !ranges[j].ContainsRange(target)
    ensures Containing(ranges, target) == Containing(ranges[i..], target)
  {
    if i > 0 {
      assert ranges[1..][i - 1..] == ranges[i..];
      ContainingSkips(ranges[1..], target, i - 1);
    }
  }

  /** No range is kept exactly when none contains the target. */
  lemma {:induction false} ContainingNone(ranges: seq<Range>, target: Range)
    ensures |Containing(ranges, target)| == 0 <==> forall k :: 0 <= k < |ranges| ==> !ranges[k].ContainsRange(target)
  {
    var c := Containing(ranges, target);
    if |c| > 0 {
      var k :| 0 <= k < |ranges| && ranges[k] == c[0];
    }
  }

  /** Range `k` is the only one that contains the target. */
  ghost predicate OnlyContainer(ranges: seq<Range>, target: Range, k: int) {
    0 <= k < |ranges| && ranges[k].ContainsRange(target)
    && forall j :: 0 <= j < |ranges| && j != k ==> !ranges[j].ContainsRange(target)
  }

  /** Exactly one range is kept exactly when exactly one range contains the target. */
  lemma {:induction false} ContainingOne(ranges: seq<Range>, target: Range)
    ensures |Containing(ranges, target)| == 1 <==> exists k :: OnlyContainer(ranges, target, k)
  {
    if |ranges| > 0 {
      var rest := ranges[1..];
      assert Containing(ranges, target)
        == (if ranges[0].ContainsRange(target) then [ranges[0]] else []) + Containing(rest, target);
      if ranges[0].ContainsRange(target) {
        ContainingNone(rest, target);
        OnlyContainerAtHead(ranges, target);
      } else {
        ContainingOne(rest, target);
        OnlyContainerShift(ranges, target);
      }
    }
  }

  /** When the first range contains the target, it is the only container exactly when no
      later one is. */
  lemma {:induction false} OnlyContainerAtHead(ranges: seq<Range>, target: Range)
    requires |ranges| > 0 && ranges[0].ContainsRange(target)
    ensures (exists k :: OnlyContainer(ranges, target, k)) <==>
      forall k :: 0 <= k < |ranges[1..]| ==> !ranges[1..][k].ContainsRange(target)
  {
    if exists k :: OnlyContainer(ranges, target, k) {
      var k :| OnlyContainer(ranges, target, k);
      assert k == 0;
    }
    if forall k :: 0 <= k < |ranges[1..]| ==> !ranges[1..][k].ContainsRange(target) {
      assert forall j :: 0 < j < |ranges| ==> ranges[j] == ranges[1..][j - 1];
      assert OnlyContainer(ranges, target, 0);
    }
  }

  /** When the first range does not contain the target, the only containers are those of
      the rest, one place later. */
  lemma {:induction false} OnlyContainerShift(ranges: seq<Range>, target: Range)
    requires |ranges| > 0 && !ranges[0].ContainsRange(target)
    ensures (exists k :: OnlyContainer(ranges, target, k)) <==> exists k :: OnlyContainer(ranges[1..], target, k)
  {
    var rest := ranges[1..];
    assert forall j :: 0 < j < |ranges| ==> ranges[j] == rest[j - 1];
    if exists k :: OnlyContainer(ranges, target, k) {
      var k :| OnlyContainer(ranges, target, k);
      assert OnlyContainer(rest, target, k - 1);
    }
    if exists k :: OnlyContainer(rest, target, k) {
      var k :| OnlyContainer(rest, target, k);
      assert OnlyContainer(ranges, target, k + 1);
    }
  }

  /** `findPositionInRanges(position, ranges)`: the first range containing the position,
      or -1. */
  method FindPositionInRanges(position: Position, ranges: seq<Range>) returns (index: int)
    ensures -1 <= index < |ranges|
    ensures index >= 0 ==> ranges[index].Contains(position)
    ensures forall j :: 0 <= j < |ranges| && (index == -1 || j < index) ==> !ranges[j].Contains(position)
    ensures index == -1 <==> |Containing(ranges, Range(position, position))| == 0
    ensures index >= 0 ==> Containing(ranges, Range(position, position))[0] == ranges[index]
  {
    var i := 0;
    while i < |ranges|
      invariant 0 <= i <= |ranges|
      invariant forall j :: 0 <= j < i ==> !ranges[j].Contains(position)
    {
      if ranges[i].Contains(position) {
        ContainingSkips(ranges, Range(position, position), i);
        return i;
      }
      i := i + 1;
    }
    ContainingSkips(ranges, Range(position, position), i);
    return -1;
  }
}
