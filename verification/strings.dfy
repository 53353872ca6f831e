/** The JavaScript string operations the extension relies on, over `string` (a `seq<char>`).
    Each function mirrors one `String.prototype` method as the extension calls it. */
module StringUtils {

  datatype Option<+T> = None | Some(value: T)

  datatype Result<+T, +E> = Ok(value: T) | Err(error: E)

  /** `needle` occurs in `s` at offset `i`. */
  predicate IsAt(s: string, i: int, needle: string) {
    0 <= i && i + |needle| <= |s| && s[i..i + |needle|] == needle
  }

  lemma {:induction false} IsAtChar(s: string, c: char)
    ensures forall j :: IsAt(s, j, [c]) <==> 0 <= j < |s| && s[j] == c
  {
    forall j | 0 <= j < |s| && s[j] == c
      ensures IsAt(s, j, [c])
    {
      assert s[j..j + 1] == [c];
    }
  }

  lemma {:induction false} IsAtHead(s: string, needle: string)
    requires |needle| > 0
    ensures forall i :: IsAt(s, i, needle) ==> s[i] == needle[0]
  {
    forall i | IsAt(s, i, needle)
      ensures s[i] == needle[0]
    {
      assert s[i..i + |needle|][0] == s[i];
    }
  }

  /** An occurrence inside a prefix of `s` is an occurrence in `s` that ends within it. */
  lemma {:induction false} IsAtTake(s: string, e: nat, needle: string)
    requires e <= |s|
    ensures forall q :: IsAt(s[..e], q, needle) <==> IsAt(s, q, needle) && q + |needle| <= e
  {
    forall q | IsAt(s[..e], q, needle)
      ensures IsAt(s, q, needle)
    {
      assert s[..e][q..q + |needle|] == s[q..q + |needle|];
    }
    forall q | IsAt(s, q, needle) && q + |needle| <= e
      ensures IsAt(s[..e], q, needle)
    {
      assert s[..e][q..q + |needle|] == s[q..q + |needle|];
    }
  }

  /** `s.includes(needle)`, equivalently `s.indexOf(needle) > -1`. */
  predicate Contains(s: string, needle: string) {
    exists i :: 0 <= i <= |s| - |needle| && IsAt(s, i, needle)
  }

  /** Whatever occurs in a text that occurs in `s` occurs in `s`. */
  lemma {:induction false} ContainsTransitive(s: string, w: string, j: nat, needle: string)
    requires Contains(s, w) && IsAt(w, j, needle)
    ensures Contains(s, needle)
  {
    var i :| 0 <= i <= |s| - |w| && IsAt(s, i, w);
    assert s[i..i + |w|] == w && w[j..j + |needle|] == needle;
    forall m | 0 <= m < |needle|
      ensures s[i + j + m] == needle[m]
    {
      assert s[i + j + m] == s[i..i + |w|][j + m];
      assert needle[m] == w[j + m];
    }
    assert s[i + j..i + j + |needle|] == needle;
    assert 0 <= i + j <= |s| - |needle| && IsAt(s, i + j, needle);
  }

  predicate StartsWith(s: string, prefix: string) {
    IsAt(s, 0, prefix)
  }

  predicate EndsWith(s: string, suffix: string) {
    |suffix| <= |s| && s[|s| - |suffix|..] == suffix
  }

  /** JavaScript clamps a search start into `[0, length]`. */
  function Clamp(x: int, hi: nat): (r: nat)
    ensures r <= hi
    ensures 0 <= x <= hi ==> r == x
    ensures x < 0 ==> r == 0
    ensures hi < x ==> r == hi
  {
    if x < 0 then 0 else if x > hi then hi else x
  }

  /** The first occurrence of `needle` at or after `k`, or -1. */
  function IndexFrom(s: string, needle: string, k: nat): (r: int)
    ensures r == -1 || (k <= r && IsAt(s, r, needle))
    ensures forall j :: k <= j && (r == -1 || j < r) ==> !IsAt(s, j, needle)
    decreases |s| - k
  {
    if k + |needle| > |s| then -1
    else if s[k..k + |needle|] == needle then k
    else IndexFrom(s, needle, k + 1)
  }

  /** `s.indexOf(needle, from)`. */
  function IndexOf(s: string, needle: string, from: int): (r: int)
    ensures r == -1 || (Clamp(from, |s|) <= r && IsAt(s, r, needle))
    ensures forall j :: Clamp(from, |s|) <= j && (r == -1 || j < r) ==> !IsAt(s, j, needle)
  {
    IndexFrom(s, needle, Clamp(from, |s|))
  }

  lemma {:induction false} IndexOfContains(s: string, needle: string)
    ensures IndexOf(s, needle, 0) >= 0 <==> Contains(s, needle)
  {
    if Contains(s, needle) {
      var i :| 0 <= i <= |s| - |needle| && IsAt(s, i, needle);
    }
  }

  /** The last occurrence of `needle` starting at or before `k`, or -1. */
  function LastAtOrBefore(s: string, needle: string, k: int): (r: int)
    ensures r == -1 || (0 <= r <= k && IsAt(s, r, needle))
    ensures forall j :: r < j <= k ==> !IsAt(s, j, needle)
    decreases k + 1
  {
    if k < 0 then -1
    else if IsAt(s, k, needle) then k
    else LastAtOrBefore(s, needle, k - 1)
  }

  /** `s.lastIndexOf(needle)`. */
  function LastIndexOf(s: string, needle: string): (r: int)
    ensures r == -1 || IsAt(s, r, needle)
    ensures forall j :: r < j ==> !IsAt(s, j, needle)
  {
    LastAtOrBefore(s, needle, |s| - |needle|)
  }

  /** The number of occurrences of the character `c` in `s`. */
  function Count(s: string, c: char): (n: nat)
    ensures n <= |s|
    ensures n == 0 <==> c !in s
  {
    if |s| == 0 then 0 else (if s[0] == c then 1 else 0) + Count(s[1..], c)
  }

  lemma {:induction false} CountAppend(a: string, b: string, c: char)
    ensures Count(a + b, c) == Count(a, c) + Count(b, c)
  {
    if |a| == 0 {
      assert a + b == b;
    } else {
      assert (a + b)[1..] == a[1..] + b;
      CountAppend(a[1..], b, c);
    }
  }

  /** `"\n".repeat(n)`. */
  function Newlines(n: nat): (r: string)
    ensures |r| == n
    ensures Count(r, '\n') == n
    ensures forall i :: 0 <= i < n ==> r[i] == '\n'
  {
    if n == 0 then "" else
      var rest := Newlines(n - 1);
      assert ("\n" + rest)[1..] == rest;
      "\n" + rest
  }

  /** `s.split(sep)` for a one-character separator. */
  function Split(s: string, sep: char): (parts: seq<string>)
    ensures |parts| == Count(s, sep) + 1
    ensures forall k :: 0 <= k < |parts| ==> sep !in parts[k]
  {
    if |s| == 0 then [""]
    else
      var rest := Split(s[1..], sep);
      if s[0] == sep then [""] + rest
      else [[s[0]] + rest[0]] + rest[1..]
  }

  /** The document's lines: `srcText.split("\n")`. */
  function Lines(s: string): (lines: seq<string>)
    ensures |lines| == Count(s, '\n') + 1
  {
    Split(s, '\n')
  }

  /** The part of `s` after its last `sep` (all of `s` when it has none). */
  function AfterLast(s: string, sep: char): (r: string)
    ensures sep !in r
    ensures |r| <= |s|
  {
    if |s| == 0 then s
    else if s[0] == sep || sep in s[1..] then AfterLast(s[1..], sep)
    else s
  }

  /** The part of `s` before its first `sep` (all of `s` when it has none). */
  function BeforeFirst(s: string, sep: char): (r: string)
    ensures sep !in r
    ensures |r| <= |s|
  {
    if |s| == 0 || s[0] == sep then "" else [s[0]] + BeforeFirst(s[1..], sep)
  }

  lemma {:induction false} SplitHead(s: string, sep: char)
    ensures Split(s, sep)[0] == BeforeFirst(s, sep)
  {
    if |s| > 0 && s[0] != sep {
      SplitHead(s[1..], sep);
    }
  }

  lemma {:induction false} CountPrefix(s: string, p: nat, c: char)
    requires p <= |s|
    ensures Count(s[..p], c) <= Count(s, c)
  {
    assert s == s[..p] + s[p..];
    CountAppend(s[..p], s[p..], c);
  }

  /** The zero-based line holding offset `p`: the number of line feeds before it,
      `srcText.substr(0, p).split("\n").length - 1`. */
  function LineOf(s: string, p: nat): (ln: nat)
    requires p <= |s|
    ensures ln < |Lines(s)|
    ensures ln == |Split(s[..p], '\n')| - 1
  {
    CountPrefix(s, p, '\n');
    Count(s[..p], '\n')
  }

  /** A later offset is on the same line or a later one. */
  lemma {:induction false} LineOfMonotone(s: string, p: nat, q: nat)
    requires p <= q <= |s|
    ensures LineOf(s, p) <= LineOf(s, q)
  {
    assert s[..q] == s[..p] + s[p..q];
    CountAppend(s[..p], s[p..q], '\n');
  }

  /** In `a + b`, the line holding the boundary is what follows the last separator of `a`
      followed by what precedes the first separator of `b`. */
  lemma {:induction false} SplitJoin(a: string, b: string, sep: char)
    ensures Count(a, sep) < |Split(a + b, sep)|
    ensures Split(a + b, sep)[Count(a, sep)] == AfterLast(a, sep) + BeforeFirst(b, sep)
  {
    CountAppend(a, b, sep);
    if |a| == 0 {
      assert a + b == b;
      SplitHead(b, sep);
    } else {
      assert (a + b)[1..] == a[1..] + b;
      SplitJoin(a[1..], b, sep);
      SplitJoinStep(a, b, sep);
    }
  }

  /** One step of `SplitJoin`: from the line of `a[1..] + b` to the line of `a + b`. */
  lemma {:induction false} SplitJoinStep(a: string, b: string, sep: char)
    requires |a| > 0
    requires (a + b)[1..] == a[1..] + b
    requires Count(a[1..], sep) < |Split(a[1..] + b, sep)|
    requires Split(a[1..] + b, sep)[Count(a[1..], sep)] == AfterLast(a[1..], sep) + BeforeFirst(b, sep)
    ensures Count(a, sep) < |Split(a + b, sep)|
    ensures Split(a + b, sep)[Count(a, sep)] == AfterLast(a, sep) + BeforeFirst(b, sep)
  {
    var rest := Split(a[1..] + b, sep);
    var n' := Count(a[1..], sep);
    var line := AfterLast(a[1..], sep) + BeforeFirst(b, sep);
    assert Count(a, sep) == (if a[0] == sep then 1 else 0) + n';
    if a[0] == sep {
      assert Split(a + b, sep) == [""] + rest;
      assert AfterLast(a, sep) == AfterLast(a[1..], sep);
    } else {
      assert Split(a + b, sep) == [[a[0]] + rest[0]] + rest[1..];
      if n' == 0 {
        assert a == [a[0]] + a[1..];
        FirstLineStep(a[0], a[1..], sep, BeforeFirst(b, sep));
      } else {
        assert sep in a[1..];
        assert AfterLast(a, sep) == AfterLast(a[1..], sep);
      }
    }
  }

  lemma {:induction false} FirstLineStep(c: char, r: string, sep: char, tail: string)
    requires c != sep && sep !in r
    ensures [c] + (AfterLast(r, sep) + tail) == AfterLast([c] + r, sep) + tail
  {
    var cr := [c] + r;
    assert sep !in cr by {
      forall i | 0 <= i < |cr|
        ensures cr[i] != sep
      {
        if i > 0 {
          assert cr[i] == r[i - 1];
        }
      }
    }
    AfterLastWithoutSeparator(r, sep);
    AfterLastWithoutSeparator(cr, sep);
    assert [c] + (r + tail) == cr + tail;
  }

  lemma {:induction false} AfterLastWithoutSeparator(s: string, sep: char)
    requires sep !in s
    ensures AfterLast(s, sep) == s
  {
  }

  /** The line holding offset `p` is what precedes `p` back to the last separator,
      followed by what follows `p` up to the next separator. */
  lemma {:induction false} SplitAt(s: string, sep: char, p: nat)
    requires p <= |s|
    ensures Count(s[..p], sep) < |Split(s, sep)|
    ensures Split(s, sep)[Count(s[..p], sep)] == AfterLast(s[..p], sep) + BeforeFirst(s[p..], sep)
  {
    assert s == s[..p] + s[p..];
    SplitJoin(s[..p], s[p..], sep);
  }

  /** A needle without line feeds found at offset `p` lies on line `LineOf(s, p)`, at the
      column given by the distance from the preceding line feed. */
  lemma {:induction false} NeedleOnItsLine(s: string, p: nat, needle: string)
    requires IsAt(s, p, needle)
    requires '\n' !in needle
    ensures IsAt(Lines(s)[LineOf(s, p)], |AfterLast(s[..p], '\n')|, needle)
  {
    SplitAt(s, '\n', p);
    var rest := s[p..];
    assert rest[..|needle|] == needle;
    BeforeFirstKeepsPrefix(rest, needle, '\n');
    var line := AfterLast(s[..p], '\n') + BeforeFirst(rest, '\n');
    var a := |AfterLast(s[..p], '\n')|;
    assert line[a..a + |needle|] == BeforeFirst(rest, '\n')[..|needle|];
  }

  lemma {:induction false} BeforeFirstKeepsPrefix(s: string, prefix: string, sep: char)
    requires |prefix| <= |s| && s[..|prefix|] == prefix
    requires sep !in prefix
    ensures |prefix| <= |BeforeFirst(s, sep)|
    ensures BeforeFirst(s, sep)[..|prefix|] == prefix
  {
    if |prefix| > 0 {
      assert s[0] == prefix[0];
      assert s[1..][..|prefix| - 1] == prefix[1..];
      BeforeFirstKeepsPrefix(s[1..], prefix[1..], sep);
    }
  }

  /** JavaScript's `WhiteSpace` and `LineTerminator` characters, the ones `trimLeft` removes. */
  predicate IsJsWhitespace(c: char) {
    var n := c as int;
    n == 0x09 || n == 0x0A || n == 0x0B || n == 0x0C || n == 0x0D || n == 0x20 || n == 0xA0
    || n == 0x1680 || (0x2000 <= n <= 0x200A) || n == 0x2028 || n == 0x2029 || n == 0x202F
    || n == 0x205F || n == 0x3000 || n == 0xFEFF
  }

  /** `s.trimLeft()`. */
  function TrimStart(s: string): (r: string)
    ensures |r| <= |s| && r == s[|s| - |r|..]
    ensures forall i :: 0 <= i < |s| - |r| ==> IsJsWhitespace(s[i])
    ensures |r| > 0 ==> !IsJsWhitespace(r[0])
  {
    if |s| > 0 && IsJsWhitespace(s[0]) then TrimStart(s[1..]) else s
  }

  /** The indentation width of a line, `line.length - line.trimLeft().length`. */
  function IndentWidth(line: string): (w: nat)
    ensures w <= |line|
    ensures forall i :: 0 <= i < w ==> IsJsWhitespace(line[i])
    ensures w < |line| ==> !IsJsWhitespace(line[w])
  {
    |line| - |TrimStart(line)|
  }

  function LowerChar(c: char): char {
    if 'A' <= c <= 'Z' then (c as int + 32) as char else c
  }

  /** `s.toLowerCase()` for ASCII letters. */
  function ToLower(s: string): (r: string)
    ensures |r| == |s|
    ensures forall i :: 0 <= i < |s| ==> r[i] == LowerChar(s[i])
  {
    seq(|s|, i requires 0 <= i < |s| => LowerChar(s[i]))
  }

  /** `s.replace(pattern, replacement)` with a string pattern: only the first occurrence
      is replaced, and nothing happens when there is none. */
  function ReplaceFirst(s: string, pattern: string, replacement: string): (r: string)
    ensures !Contains(s, pattern) ==> r == s
    ensures Contains(s, pattern) ==>
      exists i :: (0 <= i <= |s| - |pattern| && IsAt(s, i, pattern)
                   && r == s[..i] + replacement + s[i + |pattern|..]
                   && forall j :: 0 <= j < i ==> !IsAt(s, j, pattern))
  {
    IndexOfContains(s, pattern);
    var i := IndexOf(s, pattern, 0);
    if i < 0 then s else s[..i] + replacement + s[i + |pattern|..]
  }
}
