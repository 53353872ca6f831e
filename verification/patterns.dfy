/** The regular expressions of the extension, one hand-written matcher each, and the three
    ways the extension runs them over a text: `RegExp.test` and a non-global `match`
    (`Search`), a global `match` (`MatchAll`) and a global `replace` (`ReplaceAll`).

    A matcher answers, for a start offset `i`, whether the expression matches there and
    where the match ends, taking the alternatives in the order the expression lists them.
    Scanning is leftmost-first, and a global scan resumes where the previous match ended,
    as JavaScript's regular expressions do. */
module Patterns {
  import opened StringUtils

  datatype Pattern =
      /** A block comment, or a line comment together with the one character before it
          unless that character is a backslash or a colon (a `//` at a line start stands
          alone); line comments run to the end of their line. */
    | Comment
      /** A double-, single- or back-quoted literal, up to the next equal quote. */
    | QuotedString
      /** A word, a dot, one of the request verbs and an opening parenthesis. */
    | Call
      /** The name of one of the HTTP client libraries, anywhere. */
    | Library
      /** The text `unmock(`. */
    | UnmockCall
      /** At a line start, `import `, at least one character other than `;`, then `;`. */
    | ImportStatement
      /** At a line start, `import ` and a line that mentions `"unmock"`. */
    | UnmockImport

  const RequestVerbCalls: seq<string> :=
    ["request(", "get(", "delete(", "head(", "options(", "post(", "put(", "patch("]

  const LibraryNames: seq<string> := ["axios", "superagent", "request", "fetch", "supertest"]

  /** The characters that end a line for `.`, `^` and `$`. */
  predicate IsLineTerminator(c: char) {
    c == '\n' || c == '\r' || c as int == 0x2028 || c as int == 0x2029
  }

  /** Where `^` matches under the multiline flag. */
  predicate AtLineStart(s: string, i: nat) {
    i == 0 || (i <= |s| && IsLineTerminator(s[i - 1]))
  }

  /** The first line terminator at or after `k`, or the end of `s`: where `.*$` stops. */
  function LineEnd(s: string, k: nat): (e: nat)
    requires k <= |s|
    ensures k <= e <= |s|
    ensures e == |s| || IsLineTerminator(s[e])
    ensures forall j :: k <= j < e ==> !IsLineTerminator(s[j])
    decreases |s| - k
  {
    if k == |s| || IsLineTerminator(s[k]) then k else LineEnd(s, k + 1)
  }

  /** `\w`. */
  predicate IsWordChar(c: char) {
    'a' <= c <= 'z' || 'A' <= c <= 'Z' || '0' <= c <= '9' || c == '_'
  }

  /** The end of the run of word characters starting at `k`. */
  function WordEnd(s: string, k: nat): (e: nat)
    requires k <= |s|
    ensures k <= e <= |s|
    ensures e == |s| || !IsWordChar(s[e])
    ensures forall j :: k <= j < e ==> IsWordChar(s[j])
    decreases |s| - k
  {
    if k == |s| || !IsWordChar(s[k]) then k else WordEnd(s, k + 1)
  }

  /** The index of the first of `alts` that occurs at `i`, or -1: an alternation of literals. */
  function FirstAlternativeAt(s: string, i: nat, alts: seq<string>): (k: int)
    ensures -1 <= k < |alts|
    ensures k >= 0 ==> IsAt(s, i, alts[k])
    ensures forall j :: 0 <= j < |alts| && (k == -1 || j < k) ==> !IsAt(s, i, alts[j])
  {
    if |alts| == 0 then -1
    else if IsAt(s, i, alts[0]) then 0
    else
      var k := FirstAlternativeAt(s, i, alts[1..]);
      if k == -1 then -1 else k + 1
  }

  function BlockCommentAt(s: string, i: nat): (r: Option<nat>)
    ensures r.Some? ==> i + 4 <= r.value <= |s| && IsAt(s, i, "/*") && IsAt(s, r.value - 2, "*/")
    ensures r.Some? ==> forall j :: i + 2 <= j < r.value - 2 ==> !IsAt(s, j, "*/")
    ensures r.None? ==> !IsAt(s, i, "/*") || forall j :: i + 2 <= j ==> !IsAt(s, j, "*/")
  {
    if IsAt(s, i, "/*") then
      var j := IndexFrom(s, "*/", i + 2);
      if j >= 0 then Some(j + 2) else None
    else None
  }

  /** A `//` after a character other than `\` and `:` (the match starts at that character),
      or a `//` at a line start; either way the match ends where the line does. */
  function LineCommentAt(s: string, i: nat): (r: Option<nat>)
    ensures r.Some? <==> (i < |s| && s[i] != '\\' && s[i] != ':' && IsAt(s, i + 1, "//"))
                         || (AtLineStart(s, i) && IsAt(s, i, "//"))
    ensures r.Some? ==> i + 2 <= r.value <= |s| && r.value == LineEnd(s, i + 2)
  {
    if i < |s| && s[i] != '\\' && s[i] != ':' && IsAt(s, i + 1, "//") then Some(LineEnd(s, i + 3))
    else if AtLineStart(s, i) && IsAt(s, i, "//") then Some(LineEnd(s, i + 2))
    else None
  }

  function CommentAt(s: string, i: nat): (r: Option<nat>)
    ensures r.Some? ==> i < r.value <= |s|
  {
    var block := BlockCommentAt(s, i);
    if block.Some? then block else LineCommentAt(s, i)
  }

  predicate IsQuote(c: char) {
    c == '"' || c == '\'' || c == '`'
  }

  function QuotedAt(s: string, i: nat): (r: Option<nat>)
    ensures r.Some? ==> i + 2 <= r.value <= |s| && IsQuote(s[i]) && s[r.value - 1] == s[i]
    ensures r.None? && i < |s| && IsQuote(s[i]) ==> forall j :: i < j ==> !IsAt(s, j, [s[i]])
  {
    if i < |s| && IsQuote(s[i]) then
      var j := IndexFrom(s, [s[i]], i + 1);
      if j >= 0 then Some(j + 1) else None
    else None
  }

  function LiteralsAt(s: string, i: nat, alts: seq<string>): (r: Option<nat>)
    requires forall k :: 0 <= k < |alts| ==> |alts[k]| > 0
    ensures r.Some? ==> i < r.value <= |s|
    ensures r.Some? <==> exists k :: 0 <= k < |alts| && IsAt(s, i, alts[k])
  {
    var k := FirstAlternativeAt(s, i, alts);
    if k >= 0 then Some(i + |alts[k]|) else None
  }

  /** A run of word characters, a dot and one of `verbs`, matched from `i`. */
  function DottedCallAt(s: string, i: nat, verbs: seq<string>): (r: Option<nat>)
    requires forall k :: 0 <= k < |verbs| ==> |verbs[k]| > 0
    ensures r.Some? ==> i < r.value <= |s|
  {
    if i < |s| && IsWordChar(s[i]) then
      var j := WordEnd(s, i);
      if j < |s| && s[j] == '.' then LiteralsAt(s, j + 1, verbs) else None
    else None
  }

  function CallAt(s: string, i: nat): (r: Option<nat>)
    ensures r.Some? ==> i < r.value <= |s|
  {
    DottedCallAt(s, i, RequestVerbCalls)
  }

  function ImportAt(s: string, i: nat): (r: Option<nat>)
    ensures r.Some? ==> i + 9 <= r.value <= |s|
    ensures r.Some? <==> AtLineStart(s, i) && IsAt(s, i, "import ") && i + 8 < |s| && s[i + 7] != ';'
                         && exists j :: i + 7 < j < |s| && s[j] == ';'
    ensures r.Some? ==> s[r.value - 1] == ';' && forall j :: i + 7 <= j < r.value - 1 ==> s[j] != ';'
  {
    if AtLineStart(s, i) && IsAt(s, i, "import ") then
      IsAtChar(s, ';');
      var j := IndexFrom(s, ";", i + 7);
      if j > i + 7 then Some(j + 1) else None
    else None
  }

  function UnmockImportAt(s: string, i: nat): (r: Option<nat>)
    ensures r.Some? ==> i + 7 <= r.value <= |s| && r.value == LineEnd(s, i + 7)
    ensures r.Some? <==> AtLineStart(s, i) && IsAt(s, i, "import ")
                         && exists q :: i + 7 <= q && q + 8 <= LineEnd(s, i + 7) && IsAt(s, q, "\"unmock\"")
  {
    if AtLineStart(s, i) && IsAt(s, i, "import ") then
      var e := LineEnd(s, i + 7);
      IsAtTake(s, e, "\"unmock\"");
      if IndexFrom(s[..e], "\"unmock\"", i + 7) >= 0 then Some(e) else None
    else None
  }

  /** Whether pattern `p` matches at offset `i` of `s`, and where that match ends. */
  function MatchAt(p: Pattern, s: string, i: nat): (r: Option<nat>)
    ensures r.Some? ==> i < r.value <= |s|
  {
    match p
    case Comment => CommentAt(s, i)
    case QuotedString => QuotedAt(s, i)
    case Call => CallAt(s, i)
    case Library => LiteralsAt(s, i, LibraryNames)
    case UnmockCall => LiteralsAt(s, i, ["unmock("])
    case ImportStatement => ImportAt(s, i)
    case UnmockImport => UnmockImportAt(s, i)
  }

  /** The match table of `p` over `s`: entry `i` says whether `p` matches at offset `i`
      and where that match ends. The scanning functions below read only the table. */
  function MatchTable(p: Pattern, s: string): (t: seq<Option<nat>>)
    ensures |t| == |s|
    ensures forall i {:trigger MatchAt(p, s, i)} :: 0 <= i < |s| ==> t[i] == MatchAt(p, s, i)
    ensures ValidTable(t)
  {
    var t := MatchTableFrom(p, s, 0);
    TableOfMatchesIsValid(p, s, t);
    t
  }

  /** The entries of the match table from offset `from` on. */
  function MatchTableFrom(p: Pattern, s: string, from: nat): (t: seq<Option<nat>>)
    requires from <= |s|
    ensures |t| == |s| - from
    ensures forall i {:trigger MatchAt(p, s, i)} :: from <= i < |s| ==> t[i - from] == MatchAt(p, s, i)
    decreases |s| - from
  {
    if from == |s| then []
    else
      var rest := MatchTableFrom(p, s, from + 1);
      var t := [MatchAt(p, s, from)] + rest;
      assert forall i {:trigger MatchAt(p, s, i)} :: from < i < |s| ==> t[i - from] == rest[i - (from + 1)];
      t
  }

  lemma {:induction false} TableOfMatchesIsValid(p: Pattern, s: string, t: seq<Option<nat>>)
    requires |t| == |s|
    requires forall i {:trigger MatchAt(p, s, i)} :: 0 <= i < |s| ==> t[i] == MatchAt(p, s, i)
    ensures ValidTable(t)
  {
    forall i | 0 <= i < |t| && t[i].Some?
      ensures i < t[i].value <= |t|
    {
      assert t[i] == MatchAt(p, s, i);
    }
  }

  /** Every match ends after it starts and inside the text. */
  ghost predicate ValidTable(t: seq<Option<nat>>) {
    forall i :: 0 <= i < |t| && t[i].Some? ==> i < t[i].value <= |t|
  }

  /** No match starts in `[a, b)`. */
  ghost predicate NoMatchBetween(t: seq<Option<nat>>, a: nat, b: int) {
    forall i :: a <= i < b && i < |t| ==> t[i].None?
  }

  /** The leftmost match start at or after `from`, or -1. */
  function Search(t: seq<Option<nat>>, from: nat): (r: int)
    ensures r == -1 || (from <= r < |t| && t[r].Some?)
    ensures NoMatchBetween(t, from, if r == -1 then |t| else r)
    decreases |t| - from
  {
    if from >= |t| then -1
    else if t[from].Some? then from
    else Search(t, from + 1)
  }

  /** `regex.test(s)`. */
  predicate Test(p: Pattern, s: string) {
    Search(MatchTable(p, s), 0) >= 0
  }

  lemma {:induction false} TestMeansSomeMatch(p: Pattern, s: string)
    ensures Test(p, s) <==> exists i :: 0 <= i < |s| && MatchAt(p, s, i).Some?
  {
    var t := MatchTable(p, s);
    if exists i :: 0 <= i < |s| && MatchAt(p, s, i).Some? {
      var i :| 0 <= i < |s| && MatchAt(p, s, i).Some?;
      assert t[i].Some?;
    }
    if Test(p, s) {
      var r := Search(t, 0);
      assert MatchAt(p, s, r).Some?;
    }
  }

  /** The `unmock(` test holds exactly when the text contains `unmock(`. */
  lemma {:induction false} UnmockCallTest(s: string)
    ensures Test(UnmockCall, s) <==> Contains(s, "unmock(")
  {
    TestMeansSomeMatch(UnmockCall, s);
    if Contains(s, "unmock(") {
      var i :| 0 <= i <= |s| - 7 && IsAt(s, i, "unmock(");
      assert MatchAt(UnmockCall, s, i).Some?;
    }
  }

  /** The library test holds exactly when the text contains one of the library names. */
  lemma {:induction false} LibraryTest(s: string)
    ensures Test(Library, s) <==> exists k :: 0 <= k < |LibraryNames| && Contains(s, LibraryNames[k])
  {
    TestMeansSomeMatch(Library, s);
    if Test(Library, s) {
      var i :| 0 <= i < |s| && MatchAt(Library, s, i).Some?;
      var k :| 0 <= k < |LibraryNames| && IsAt(s, i, LibraryNames[k]);
      assert Contains(s, LibraryNames[k]);
    }
    if exists k :: 0 <= k < |LibraryNames| && Contains(s, LibraryNames[k]) {
      var k :| 0 <= k < |LibraryNames| && Contains(s, LibraryNames[k]);
      var i :| 0 <= i <= |s| - |LibraryNames[k]| && IsAt(s, i, LibraryNames[k]);
      assert MatchAt(Library, s, i).Some?;
    }
  }

  /** A text the call pattern matches as a whole: a run of word characters, a dot, and one
      of `verbs`. */
  predicate IsDottedCall(m: string, verbs: seq<string>) {
    exists j :: 0 < j < |m| && m[j] == '.' && (forall q :: 0 <= q < j ==> IsWordChar(m[q]))
                && m[j + 1..] in verbs
  }

  /** A text the call pattern matches as a whole, with one of the request verbs. */
  predicate IsCallText(m: string) {
    IsDottedCall(m, RequestVerbCalls)
  }

  /** `v` ends in its only opening parenthesis. */
  predicate ParenOnlyLast(v: string) {
    |v| > 0 && v[|v| - 1] == '(' && forall q :: 0 <= q < |v| - 1 ==> v[q] != '('
  }

  lemma {:induction false} VerbCallsParenOnlyLast()
    ensures forall k :: 0 <= k < |RequestVerbCalls| ==> ParenOnlyLast(RequestVerbCalls[k])
  {
  }

  /** A text that ends in its only opening parenthesis is a prefix of another such text
      only when the two are equal. */
  lemma {:induction false} ParenOnlyLastPrefix(a: string, b: string)
    requires ParenOnlyLast(a) && ParenOnlyLast(b)
    requires |a| <= |b| && b[..|a|] == a
    ensures a == b
  {
    assert b[..|a|][|a| - 1] == b[|a| - 1];
    assert |a| == |b|;
    assert b[..|a|] == b;
  }

  /** Two texts that each end in their only opening parenthesis cannot both occur at the
      same offset unless they are equal. */
  lemma {:induction false} ParenOnlyLastExclusive(s: string, p: nat, a: string, b: string)
    requires ParenOnlyLast(a) && ParenOnlyLast(b)
    requires IsAt(s, p, a) && IsAt(s, p, b)
    ensures a == b
  {
    if |a| <= |b| {
      assert b[..|a|] == s[p..p + |a|];
      ParenOnlyLastPrefix(a, b);
    } else {
      assert a[..|b|] == s[p..p + |b|];
      ParenOnlyLastPrefix(b, a);
    }
  }

  /** What the dotted-call matcher matches is a dotted call. */
  lemma {:induction false} DottedCallAtMatches(s: string, i: nat, verbs: seq<string>)
    requires forall k :: 0 <= k < |verbs| ==> |verbs[k]| > 0
    requires DottedCallAt(s, i, verbs).Some?
    ensures IsDottedCall(s[i..DottedCallAt(s, i, verbs).value], verbs)
  {
    var e := DottedCallAt(s, i, verbs).value;
    var m := s[i..e];
    var j := WordEnd(s, i);
    var k := FirstAlternativeAt(s, j + 1, verbs);
    assert m[j - i] == '.';
    assert m[j - i + 1..] == verbs[k];
    assert forall q :: 0 <= q < j - i ==> IsWordChar(m[q]) by {
      forall q | 0 <= q < j - i
        ensures IsWordChar(m[q])
      {
        assert m[q] == s[i + q];
      }
    }
  }

  /** A dotted call at `i` is what the dotted-call matcher matches there, when each verb
      ends in its only opening parenthesis. */
  lemma {:induction false} DottedCallIsMatched(s: string, i: nat, e: nat, verbs: seq<string>)
    requires forall k :: 0 <= k < |verbs| ==> |verbs[k]| > 0 && ParenOnlyLast(verbs[k])
    requires i <= e <= |s| && IsDottedCall(s[i..e], verbs)
    ensures DottedCallAt(s, i, verbs) == Some(e)
  {
    var w := DotOfDottedCall(s, i, e, verbs);
    DottedCallFromDot(s, i, w, e, verbs);
  }

  /** A run of word characters from `i` to a dot at `w`, followed by a verb ending at `e`,
      is matched from `i` to `e`. */
  lemma {:induction false} DottedCallFromDot(s: string, i: nat, w: nat, e: nat, verbs: seq<string>)
    requires forall k :: 0 <= k < |verbs| ==> |verbs[k]| > 0 && ParenOnlyLast(verbs[k])
    requires i < w < e <= |s| && s[w] == '.' && s[w + 1..e] in verbs
    requires forall q :: i <= q < w ==> IsWordChar(s[q])
    ensures DottedCallAt(s, i, verbs) == Some(e)
  {
    WordEndAt(s, i, w);
    DottedCallAtUnfold(s, i, w, verbs);
    LiteralsAtExclusive(s, w + 1, verbs, s[w + 1..e]);
  }

  /** The dot of a dotted call found in `s[i..e]`, as an offset of `s`. */
  lemma {:induction false} DotOfDottedCall(s: string, i: nat, e: nat, verbs: seq<string>) returns (w: nat)
    requires i <= e <= |s| && IsDottedCall(s[i..e], verbs)
    ensures i < w < e && s[w] == '.' && s[w + 1..e] in verbs
    ensures forall q :: i <= q < w ==> IsWordChar(s[q])
  {
    var m := s[i..e];
    var j :| 0 < j < |m| && m[j] == '.' && (forall q :: 0 <= q < j ==> IsWordChar(m[q]))
             && m[j + 1..] in verbs;
    w := i + j;
    assert m[j + 1..] == s[w + 1..e];
    forall q | i <= q < w
      ensures IsWordChar(s[q])
    {
      assert s[q] == m[q - i];
    }
  }

  lemma {:induction false} DottedCallAtUnfold(s: string, i: nat, w: nat, verbs: seq<string>)
    requires forall k :: 0 <= k < |verbs| ==> |verbs[k]| > 0
    requires i < w < |s| && IsWordChar(s[i]) && WordEnd(s, i) == w && s[w] == '.'
    ensures DottedCallAt(s, i, verbs) == LiteralsAt(s, w + 1, verbs)
  {
    var j := WordEnd(s, i);
    assert j < |s| && s[j] == '.';
  }

  /** Among alternatives that each end in their only opening parenthesis, the one that
      occurs decides where the alternation's match ends. */
  lemma {:induction false} LiteralsAtExclusive(s: string, p: nat, alts: seq<string>, v: string)
    requires forall k :: 0 <= k < |alts| ==> |alts[k]| > 0 && ParenOnlyLast(alts[k])
    requires v in alts && IsAt(s, p, v)
    ensures LiteralsAt(s, p, alts) == Some(p + |v|)
  {
    var idx :| 0 <= idx < |alts| && alts[idx] == v;
    var k := FirstAlternativeAt(s, p, alts);
    assert k >= 0;
    ParenOnlyLastExclusive(s, p, alts[k], v);
  }

  /** A run of word characters from `i` to a non-word character at `w` ends at `w`. */
  lemma {:induction false} WordEndAt(s: string, i: nat, w: nat)
    requires i <= w < |s| && !IsWordChar(s[w])
    requires forall q :: i <= q < w ==> IsWordChar(s[q])
    ensures WordEnd(s, i) == w
  {
  }

  /** The call matcher matches from `i` to `e` exactly when `s[i..e]` is a call text. */
  lemma {:induction false} CallAtMeansCallText(s: string, i: nat, e: nat)
    requires i <= e <= |s|
    ensures CallAt(s, i) == Some(e) <==> IsCallText(s[i..e])
  {
    if CallAt(s, i) == Some(e) {
      DottedCallAtMatches(s, i, RequestVerbCalls);
    }
    if IsCallText(s[i..e]) {
      VerbCallsParenOnlyLast();
      DottedCallIsMatched(s, i, e, RequestVerbCalls);
    }
  }

  /** Some stretch of `s` is a call text. */
  ghost predicate HasCallText(s: string) {
    exists i, e :: 0 <= i <= e <= |s| && IsCallText(s[i..e])
  }

  /** The call test holds exactly when some stretch of the text is a call text. */
  lemma {:induction false} CallTest(s: string)
    ensures Test(Call, s) <==> HasCallText(s)
  {
    TestMeansSomeMatch(Call, s);
    if Test(Call, s) {
      var i :| 0 <= i < |s| && MatchAt(Call, s, i).Some?;
      var e := MatchAt(Call, s, i).value;
      CallAtMeansCallText(s, i, e);
    }
    if HasCallText(s) {
      var i, e :| 0 <= i <= e <= |s| && IsCallText(s[i..e]);
      CallAtMeansCallText(s, i, e);
      assert MatchAt(Call, s, i).Some?;
    }
  }

  datatype Match = Match(start: nat, end: nat)

  /** The scan's promise about the matches it reports from `from` on: each is a match of
      the table, they come in order without overlapping, and no match starts in the gaps
      the scan stepped over. */
  ghost predicate ScannedFrom(t: seq<Option<nat>>, from: nat, ms: seq<Match>) {
    && (forall k :: 0 <= k < |ms| ==> from <= ms[k].start < |t| && t[ms[k].start] == Some(ms[k].end))
    && (forall k :: 0 <= k < |ms| - 1 ==> ms[k].end <= ms[k + 1].start)
    && (|ms| == 0 ==> NoMatchBetween(t, from, |t|))
    && (|ms| > 0 ==> NoMatchBetween(t, from, ms[0].start))
    && (|ms| > 0 ==> NoMatchBetween(t, ms[|ms| - 1].end, |t|))
    && (forall k :: 0 <= k < |ms| - 1 ==> NoMatchBetween(t, ms[k].end, ms[k + 1].start))
  }

  /** The matches of a global scan starting at `from`. */
  function ScanFrom(t: seq<Option<nat>>, from: nat): (ms: seq<Match>)
    requires ValidTable(t)
    ensures ScannedFrom(t, from, ms)
    decreases |t| - from
  {
    if from >= |t| then []
    else match t[from]
      case Some(e) =>
        var rest := ScanFrom(t, e);
        ScanStep(t, from, e, rest);
        [Match(from, e)] + rest
      case None => ScanFrom(t, from + 1)
  }

  lemma {:induction false} ScanStep(t: seq<Option<nat>>, from: nat, e: nat, rest: seq<Match>)
    requires ValidTable(t) && from < |t| && t[from] == Some(e)
    requires ScannedFrom(t, e, rest)
    ensures ScannedFrom(t, from, [Match(from, e)] + rest)
  {
    var ms := [Match(from, e)] + rest;
    assert forall k :: 1 <= k < |ms| ==> ms[k] == rest[k - 1];
  }

  /** The matches of a global `match`: leftmost, non-overlapping, in order. */
  function MatchAll(p: Pattern, s: string): (ms: seq<Match>)
    ensures forall k :: 0 <= k < |ms| ==> ms[k].start < ms[k].end <= |s|
    ensures ScannedFrom(MatchTable(p, s), 0, ms)
  {
    ScanFrom(MatchTable(p, s), 0)
  }

  /** The matched texts of a global `match`. */
  function MatchTexts(p: Pattern, s: string): (texts: seq<string>)
    ensures |texts| == |MatchAll(p, s)|
    ensures forall k :: 0 <= k < |texts| ==>
      texts[k] == s[MatchAll(p, s)[k].start..MatchAll(p, s)[k].end]
  {
    var ms := MatchAll(p, s);
    seq(|ms|, k requires 0 <= k < |ms| => s[ms[k].start..ms[k].end])
  }

  /** The text of a match occurs where the match starts. */
  lemma {:induction false} MatchTextOccurs(p: Pattern, s: string, k: nat)
    requires k < |MatchAll(p, s)|
    ensures IsAt(s, MatchAll(p, s)[k].start, MatchTexts(p, s)[k])
    ensures MatchAt(p, s, MatchAll(p, s)[k].start) == Some(MatchAll(p, s)[k].end)
  {
    var m := MatchAll(p, s)[k];
    assert MatchTexts(p, s)[k] == s[m.start..m.end];
  }

  /** A global match finds something exactly when `test` does, and its first match is the
      one a non-global search finds. */
  lemma {:induction false} MatchAllAgreesWithSearch(p: Pattern, s: string)
    ensures |MatchAll(p, s)| > 0 <==> Test(p, s)
    ensures |MatchAll(p, s)| > 0 ==> MatchAll(p, s)[0].start == Search(MatchTable(p, s), 0)
  {
    var t := MatchTable(p, s);
    var ms := MatchAll(p, s);
    var r := Search(t, 0);
    if |ms| > 0 {
      assert t[ms[0].start].Some?;
      assert r <= ms[0].start;
    }
  }

  /** What a global `replace` puts in place of a match. */
  datatype Replacement =
      /** As many line feeds as the match held. */
    | KeepNewlines
      /** Nothing. */
    | Delete

  function Substitute(how: Replacement, matched: string): (r: string)
    ensures |r| <= |matched|
    ensures Count(r, '\n') == (if how == KeepNewlines then Count(matched, '\n') else 0)
  {
    match how
    case KeepNewlines => Newlines(Count(matched, '\n'))
    case Delete => ""
  }

  /** A global `replace` starting at `from`. */
  function ReplaceFrom(t: seq<Option<nat>>, s: string, from: nat, how: Replacement): (r: string)
    requires ValidTable(t) && |t| == |s|
    ensures from <= |s| ==> |r| <= |s| - from
    decreases |s| - from
  {
    if from >= |s| then ""
    else match t[from]
      case Some(e) => Substitute(how, s[from..e]) + ReplaceFrom(t, s, e, how)
      case None => [s[from]] + ReplaceFrom(t, s, from + 1, how)
  }

  /** `s.replace(regex, replacer)` with the global flag. */
  function ReplaceAll(p: Pattern, s: string, how: Replacement): (r: string)
    ensures |r| <= |s|
  {
    ReplaceFrom(MatchTable(p, s), s, 0, how)
  }

  /** Where no match starts, a replacement copies the text. */
  lemma {:induction false} ReplaceSkips(t: seq<Option<nat>>, s: string, from: nat, k: nat, how: Replacement)
    requires ValidTable(t) && |t| == |s|
    requires from <= k <= |s|
    requires NoMatchBetween(t, from, k)
    ensures ReplaceFrom(t, s, from, how) == s[from..k] + ReplaceFrom(t, s, k, how)
    decreases k - from
  {
    if from < k {
      var rest := ReplaceFrom(t, s, k, how);
      ReplaceCopiesChar(t, s, from, how);
      ReplaceSkips(t, s, from + 1, k, how);
      assert ReplaceFrom(t, s, from, how) == [s[from]] + (s[from + 1..k] + rest);
      ConsSlice(s, from, k, rest);
    }
  }

  /** Where no match starts, the character is copied. */
  lemma {:induction false} ReplaceCopiesChar(t: seq<Option<nat>>, s: string, from: nat, how: Replacement)
    requires ValidTable(t) && |t| == |s|
    requires from < |s| && t[from].None?
    ensures ReplaceFrom(t, s, from, how) == [s[from]] + ReplaceFrom(t, s, from + 1, how)
  {
  }

  lemma {:induction false} ConsSlice(s: string, a: nat, b: nat, rest: string)
    requires a < b <= |s|
    ensures [s[a]] + (s[a + 1..b] + rest) == s[a..b] + rest
  {
    assert s[a..b] == [s[a]] + s[a + 1..b];
  }

  lemma {:induction false} ReplaceWithoutMatches(p: Pattern, s: string, how: Replacement)
    requires forall i :: 0 <= i < |s| ==> MatchAt(p, s, i).None?
    ensures ReplaceAll(p, s, how) == s
  {
    forall i | 0 <= i < |s|
      ensures MatchTable(p, s)[i].None?
    {
      assert MatchAt(p, s, i).None?;
    }
    ReplaceSkips(MatchTable(p, s), s, 0, |s|, how);
    assert s[0..|s|] == s;
  }

  /** Replacing each match by its own line feeds keeps the number of line feeds. */
  lemma {:induction false} ReplaceKeepsNewlines(t: seq<Option<nat>>, s: string, from: nat)
    requires ValidTable(t) && |t| == |s|
    requires from <= |s|
    ensures Count(ReplaceFrom(t, s, from, KeepNewlines), '\n') == Count(s[from..], '\n')
    decreases |s| - from
  {
    if from < |s| {
      match t[from]
      case Some(e) =>
        ReplaceKeepsNewlines(t, s, e);
        assert s[from..] == s[from..e] + s[e..];
        CountBothSides(Substitute(KeepNewlines, s[from..e]), ReplaceFrom(t, s, e, KeepNewlines), s[from..e], s[e..]);
      case None =>
        ReplaceKeepsNewlines(t, s, from + 1);
        assert s[from..] == [s[from]] + s[from + 1..];
        CountBothSides([s[from]], ReplaceFrom(t, s, from + 1, KeepNewlines), [s[from]], s[from + 1..]);
    }
  }

  lemma {:induction false} CountBothSides(x: string, y: string, u: string, v: string)
    requires Count(x, '\n') == Count(u, '\n') && Count(y, '\n') == Count(v, '\n')
    ensures Count(x + y, '\n') == Count(u + v, '\n')
  {
    CountAppend(x, y, '\n');
    CountAppend(u, v, '\n');
  }

  predicate IsSuffix(x: string, y: string) {
    |x| <= |y| && y[|y| - |x|..] == x
  }

  lemma {:induction false} SuffixOfAppend(x: string, y: string, z: string)
    requires IsSuffix(x, y)
    ensures IsSuffix(x, z + y)
  {
    assert (z + y)[|z + y| - |x|..] == y[|y| - |x|..];
  }

  /** The scan from `from` passes through `k`: `k` is not inside a match. */
  predicate Reaches(t: seq<Option<nat>>, from: nat, k: nat)
    requires ValidTable(t)
    decreases |t| - from
  {
    from == k
    || (from < k && from < |t| &&
        match t[from]
        case Some(e) => Reaches(t, e, k)
        case None => Reaches(t, from + 1, k))
  }

  /** When the scan reaches `k`, the replacement of the text from `k` on ends the
      replacement of the whole. */
  lemma {:induction false} ReachesKeepsSuffix(t: seq<Option<nat>>, s: string, from: nat, k: nat, how: Replacement)
    requires ValidTable(t) && |t| == |s|
    requires Reaches(t, from, k)
    ensures IsSuffix(ReplaceFrom(t, s, k, how), ReplaceFrom(t, s, from, how))
    decreases |s| - from
  {
    if from != k {
      match t[from]
      case Some(e) =>
        ReachesKeepsSuffix(t, s, e, k, how);
        SuffixOfAppend(ReplaceFrom(t, s, k, how), ReplaceFrom(t, s, e, how), Substitute(how, s[from..e]));
      case None =>
        ReachesKeepsSuffix(t, s, from + 1, k, how);
        SuffixOfAppend(ReplaceFrom(t, s, k, how), ReplaceFrom(t, s, from + 1, how), [s[from]]);
    }
  }

  /** A scan passes through every offset before which no match starts. */
  lemma {:induction false} ReachesOverNoMatch(t: seq<Option<nat>>, from: nat, k: nat)
    requires ValidTable(t)
    requires from <= k <= |t|
    requires NoMatchBetween(t, from, k)
    ensures Reaches(t, from, k)
    decreases k - from
  {
    if from < k {
      ReachesOverNoMatch(t, from + 1, k);
    }
  }

  /** Every `//` follows a colon or a backslash, as in `http://`, and no block comment opens. */
  predicate OnlyEscapedSlashes(s: string) {
    && (forall k :: 0 <= k < |s| ==> !IsAt(s, k, "/*"))
    && (forall k :: 0 <= k < |s| && IsAt(s, k, "//") ==> k > 0 && (s[k - 1] == ':' || s[k - 1] == '\\'))
  }

  /** A `//` right after a colon or backslash starts no comment, and neither does that
      colon or backslash; the first slash starts one only when a third slash follows. */
  lemma {:induction false} EscapedSlashesStartNoComment(s: string, k: nat)
    requires 0 < k && IsAt(s, k, "//") && (s[k - 1] == ':' || s[k - 1] == '\\')
    ensures MatchAt(Comment, s, k - 1).None?
    ensures MatchAt(Comment, s, k).Some? <==> IsAt(s, k + 2, "/")
  {
    IsAtChar(s, '/');
    assert s[k] == '/' && s[k + 1] == '/';
  }

  lemma {:induction false} NoCommentWithOnlyEscapedSlashes(s: string)
    requires OnlyEscapedSlashes(s)
    ensures forall i :: 0 <= i < |s| ==> MatchAt(Comment, s, i).None?
  {
    forall i | 0 <= i < |s|
      ensures MatchAt(Comment, s, i).None?
    {
      assert !IsAt(s, i, "/*");
      if IsAt(s, i + 1, "//") {
        assert s[i] == ':' || s[i] == '\\';
      }
    }
  }

  /** Comment removal leaves text whose only `//` follow a colon or a backslash unchanged,
      whichever way matches are replaced. */
  lemma {:induction false} EscapedSlashesKeepText(s: string, how: Replacement)
    requires OnlyEscapedSlashes(s)
    ensures ReplaceAll(Comment, s, how) == s
  {
    NoCommentWithOnlyEscapedSlashes(s);
    ReplaceWithoutMatches(Comment, s, how);
  }

  /** Comment removal leaves text with no block comment opener and no `//` unchanged. */
  lemma {:induction false} NoCommentMarkersKeepText(s: string, how: Replacement)
    requires !Contains(s, "/*") && !Contains(s, "//")
    ensures ReplaceAll(Comment, s, how) == s
  {
    EscapedSlashesKeepText(s, how);
  }

  /** The character before a line comment is removed with it: after a text without slashes,
      a character other than a slash, colon or backslash followed by `//` and the rest of the
      line is replaced as one match. */
  lemma {:induction false} LineCommentTakesCharBefore(p: string, c: char, t: string, how: Replacement)
    requires '/' !in p && c != '/' && c != ':' && c != '\\'
    requires forall q :: 0 <= q < |t| ==> !IsLineTerminator(t[q])
    ensures ReplaceAll(Comment, p + [c] + "//" + t, how) == p + Substitute(how, [c] + "//" + t)
  {
    var s := p + [c] + "//" + t;
    var tbl := MatchTable(Comment, s);
    NoCommentBeforeChar(s, p, c, t);
    ReplaceSkips(tbl, s, 0, |p|, how);
    CommentFromCharToLineEnd(s, p, c, t);
    assert s[0..|p|] == p;
    assert s[|p|..|s|] == [c] + "//" + t;
  }

  lemma {:induction false} NoCommentBeforeChar(s: string, p: string, c: char, t: string)
    requires s == p + [c] + "//" + t
    requires '/' !in p && c != '/'
    ensures NoMatchBetween(MatchTable(Comment, s), 0, |p|)
  {
    forall q | 0 <= q <= |p|
      ensures s[q] != '/'
    {
      if q < |p| {
        assert s[q] == p[q];
      } else {
        assert s[q] == c;
      }
    }
    NoCommentWithoutSlash(s, 0, |p|);
  }

  lemma {:induction false} CommentFromCharToLineEnd(s: string, p: string, c: char, t: string)
    requires s == p + [c] + "//" + t
    requires c != ':' && c != '\\'
    requires forall q :: 0 <= q < |t| ==> !IsLineTerminator(t[q])
    ensures MatchAt(Comment, s, |p|) == Some(|s|)
  {
    IsAtChar(s, '/');
    assert s[|p|] == c && s[|p| + 1] == '/' && s[|p| + 2] == '/';
    forall q | |p| + 3 <= q < |s|
      ensures !IsLineTerminator(s[q])
    {
      assert s[q] == t[q - |p| - 3];
    }
  }

  /** Comment removal keeps every line feed of the text. */
  lemma {:induction false} CommentRemovalKeepsNewlines(s: string)
    ensures Count(ReplaceAll(Comment, s, KeepNewlines), '\n') == Count(s, '\n')
  {
    ReplaceKeepsNewlines(MatchTable(Comment, s), s, 0);
    assert s[0..] == s;
  }

  /** String removal leaves text without quote characters unchanged. */
  lemma {:induction false} NoQuotesKeepText(s: string)
    requires forall i :: 0 <= i < |s| ==> !IsQuote(s[i])
    ensures ReplaceAll(QuotedString, s, Delete) == s
  {
    ReplaceWithoutMatches(QuotedString, s, Delete);
  }

  /** A literal between two stretches without quote characters is deleted whole, with any
      quote characters of the other kinds inside it, and the text around it is kept. */
  lemma {:induction false} LiteralIsDeleted(p: string, c: char, b: string, t: string)
    requires IsQuote(c) && c !in b
    requires forall i :: 0 <= i < |p| ==> !IsQuote(p[i])
    requires forall i :: 0 <= i < |t| ==> !IsQuote(t[i])
    ensures ReplaceAll(QuotedString, p + [c] + b + [c] + t, Delete) == p + t
  {
    var s := p + [c] + b + [c] + t;
    var tbl := MatchTable(QuotedString, s);
    var e := |p| + |b| + 2;
    forall i | 0 <= i < |p|
      ensures tbl[i].None?
    {
      assert s[i] == p[i];
      assert MatchAt(QuotedString, s, i).None?;
    }
    forall i | e <= i < |s|
      ensures tbl[i].None?
    {
      assert s[i] == t[i - e];
      assert MatchAt(QuotedString, s, i).None?;
    }
    LiteralMatchAt(s, p, c, b, t);
    ReplaceSkips(tbl, s, 0, |p|, Delete);
    ReplaceSkips(tbl, s, e, |s|, Delete);
    assert s[0..|p|] == p;
    assert s[e..|s|] == t;
  }

  /** The literal pattern matches from an opening quote to the next quote of its kind. */
  lemma {:induction false} LiteralMatchAt(s: string, p: string, c: char, b: string, t: string)
    requires s == p + [c] + b + [c] + t
    requires IsQuote(c) && c !in b
    ensures MatchAt(QuotedString, s, |p|) == Some(|p| + |b| + 2)
  {
    var close := |p| + |b| + 1;
    assert s[|p|] == c;
    assert s[close..close + 1] == [c];
    assert IsAt(s, close, [c]);
    forall k | |p| + 1 <= k < close
      ensures s[k] != c
    {
      assert s[k] == b[k - |p| - 1];
    }
    var j := IndexFrom(s, [c], |p| + 1);
    assert j != -1 && j <= close;
    assert s[j..j + 1][0] == c;
  }

  /** Text the scan reaches and then crosses without a match starting in it survives the
      replacement. */
  lemma {:induction false} ReachedTextSurvives(t: seq<Option<nat>>, s: string, a: nat, b: nat, how: Replacement)
    requires ValidTable(t) && |t| == |s|
    requires a <= b <= |s| && Reaches(t, 0, a) && NoMatchBetween(t, a, b)
    ensures Contains(ReplaceFrom(t, s, 0, how), s[a..b])
  {
    ReachesKeepsSuffix(t, s, 0, a, how);
    ReplaceSkips(t, s, a, b, how);
    ContainedInSuffix(ReplaceFrom(t, s, 0, how), ReplaceFrom(t, s, a, how), s[a..b], ReplaceFrom(t, s, b, how));
  }

  lemma {:induction false} ContainedInSuffix(x: string, y: string, w: string, z: string)
    requires IsSuffix(y, x) && y == w + z
    ensures Contains(x, w)
  {
    var i := |x| - |y|;
    assert x[i..] == y;
    assert x[i..i + |w|] == x[i..][..|w|] == y[..|w|] == w;
    assert IsAt(x, i, w);
  }

  /** No comment starts where neither the character nor the one after it is a slash. */
  lemma {:induction false} NoCommentWithoutSlash(s: string, a: nat, b: nat)
    requires a <= b < |s|
    requires forall q :: a <= q <= b ==> s[q] != '/'
    ensures NoMatchBetween(MatchTable(Comment, s), a, b)
  {
    IsAtHead(s, "/*");
    IsAtHead(s, "//");
    forall i | a <= i < b
      ensures MatchTable(Comment, s)[i].None?
    {
      assert s[i] != '/' && s[i + 1] != '/';
      assert MatchAt(Comment, s, i).None?;
    }
  }

  /** A scan that passes through `b` on its way from `a`, and through `c` on its way from
      `b`, passes through `c` on its way from `a`. */
  lemma {:induction false} ReachesTransitive(t: seq<Option<nat>>, a: nat, b: nat, c: nat)
    requires ValidTable(t)
    requires Reaches(t, a, b) && Reaches(t, b, c)
    ensures Reaches(t, a, c)
    decreases |t| - a
  {
    if a != b {
      match t[a]
      case Some(e) => ReachesTransitive(t, e, b, c);
      case None => ReachesTransitive(t, a + 1, b, c);
    }
  }
}
