/** The hover provider that links a test file to its recorded snapshot: which snapshot files
    it accepts, the order it records them in, and how it picks the snapshot of a document.
    The workspace search and the file reads enter as an input: the snapshot files found,
    each with its path and contents. */
module LinkTestsMocks {
  import opened StringUtils

  const SnapshotSuffix: string := ".snap"

  /** The keys a recorded snapshot holds. */
  const SnapshotKeywords: seq<string> := ["\"hash\":", "\"host\":", "\"method\":", "\"path\":"]

  /** A snapshot file found in the workspace, with its contents. */
  datatype SnapshotFile = SnapshotFile(fsPath: string, contents: string)

  /** The provider's state: the paths of the accepted snapshot files. */
  datatype LinkMockHoverProvider = LinkMockHoverProvider(snaps: seq<string>)

  /** `keywords.reduce((agg, kw) => agg && contents.includes(kw), agg)`. */
  function IncludesAll(contents: string, keywords: seq<string>, agg: bool): (ok: bool)
    ensures ok <==> agg && forall k :: 0 <= k < |keywords| ==> Contains(contents, keywords[k])
    decreases |keywords|
  {
    if |keywords| == 0 then agg
    else
      assert forall k :: 0 < k < |keywords| ==> keywords[k] == keywords[1..][k - 1];
      IncludesAll(contents, keywords[1..], agg && Contains(contents, keywords[0]))
  }

  /** A snapshot file is accepted when its contents hold every snapshot keyword. */
  predicate HasKeywords(contents: string) {
    IncludesAll(contents, SnapshotKeywords, true)
  }

  /** The four keys, spelled out. */
  lemma {:induction false} HasKeywordsMeans(contents: string)
    ensures HasKeywords(contents) <==>
      Contains(contents, "\"hash\":") && Contains(contents, "\"host\":")
      && Contains(contents, "\"method\":") && Contains(contents, "\"path\":")
  {
    var ks := SnapshotKeywords;
    assert ks[0] == "\"hash\":" && ks[1] == "\"host\":" && ks[2] == "\"method\":" && ks[3] == "\"path\":";
  }

  /** The paths of the accepted files, in the order they are found. */
  function Accepted(files: seq<SnapshotFile>): (paths: seq<string>)
    ensures |paths| <= |files|
    ensures forall p :: p in paths <==> exists k :: 0 <= k < |files| && files[k].fsPath == p && HasKeywords(files[k].contents)
  {
    if |files| == 0 then []
    else
      var rest := Accepted(files[1..]);
      assert forall k :: 0 < k < |files| ==> files[k] == files[1..][k - 1];
      (if HasKeywords(files[0].contents) then [files[0].fsPath] else []) + rest
  }

  /** Accepting the files one by one appends each accepted path at the end. */
  lemma {:induction false} AcceptedAppend(files: seq<SnapshotFile>, f: SnapshotFile)
    ensures Accepted(files + [f]) == Accepted(files) + (if HasKeywords(f.contents) then [f.fsPath] else [])
  {
    if |files| > 0 {
      assert (files + [f])[1..] == files[1..] + [f];
      AcceptedAppend(files[1..], f);
    } else {
      assert files + [f] == [f];
    }
  }

  /** `getSnapFiles()`: the scan runs only while no snapshot is recorded; it then pushes
      every found file whose contents hold the keywords, in the order found. */
  method GetSnapFiles(provider: LinkMockHoverProvider, found: Option<seq<SnapshotFile>>)
    returns (r: LinkMockHoverProvider)
    ensures |provider.snaps| > 0 ==> r == provider
    ensures |provider.snaps| == 0 && (found.None? || |found.value| == 0) ==> r.snaps == []
    ensures |provider.snaps| == 0 && found.Some? ==> r.snaps == Accepted(found.value)
  {
    r := provider;
    if |provider.snaps| == 0 {
      if found.None? || |found.value| == 0 {
        return;
      }
      var files := found.value;
      var i := 0;
      while i < |files|
        invariant 0 <= i <= |files|
        invariant r.snaps == Accepted(files[..i])
      {
        AcceptedAppend(files[..i], files[i]);
        assert files[..i + 1] == files[..i] + [files[i]];
        if IncludesAll(files[i].contents, SnapshotKeywords, true) {
          r := r.(snaps := r.snaps + [files[i].fsPath]);
        }
        i := i + 1;
      }
      assert files[..i] == files;
    }
  }

  /** `s` with its trailing slashes removed. */
  function StripTrailingSlashes(s: string): (r: string)
    ensures r <= s
    ensures |r| == 0 || r[|r| - 1] != '/'
    ensures forall k :: |r| <= k < |s| ==> s[k] == '/'
  {
    if |s| > 0 && s[|s| - 1] == '/' then StripTrailingSlashes(s[..|s| - 1]) else s
  }

  /** `path.basename(p)` on POSIX: the last path component, ignoring trailing slashes. */
  function Basename(p: string): (r: string)
    ensures '/' !in r
    ensures |r| <= |p|
  {
    AfterLast(StripTrailingSlashes(p), '/')
  }

  /** `path.basename(p, ext)` on POSIX for a non-empty extension: the empty string when the
      path is the extension; otherwise the last component, with the extension removed when
      the component ends in it and is longer than it. */
  function BasenameWithout(p: string, ext: string): (r: string)
    requires |ext| > 0
    ensures p == ext ==> r == ""
    ensures p != ext ==> r <= Basename(p)
    ensures p != ext && !EndsWith(Basename(p), ext) ==> r == Basename(p)
    ensures p != ext && |Basename(p)| > |ext| && EndsWith(Basename(p), ext) ==> r + ext == Basename(p)
    ensures p != ext && Basename(p) == ext ==> r == ext
  {
    if p == ext then ""
    else
      var b := Basename(p);
      if |b| > |ext| && EndsWith(b, ext) then b[..|b| - |ext|] else b
  }

  /** The snapshot of a document: its name with `.snap` appended. */
  predicate SnapshotOf(snap: string, filename: string) {
    BasenameWithout(snap, SnapshotSuffix) == Basename(filename)
  }

  /** `snapFile(filename)`: the first recorded snapshot whose basename without `.snap` is
      the document's basename. The filtered array is always truthy, so an empty filter
      gives its undefined first element. */
  function SnapFile(snaps: seq<string>, filename: string): (r: Option<string>)
    ensures r.None? <==> forall k :: 0 <= k < |snaps| ==> !SnapshotOf(snaps[k], filename)
    ensures r.Some? ==>
      exists k :: (0 <= k < |snaps| && snaps[k] == r.value && SnapshotOf(snaps[k], filename)
                   && forall j :: 0 <= j < k ==> !SnapshotOf(snaps[j], filename))
  {
    if |snaps| == 0 then None
    else if SnapshotOf(snaps[0], filename) then Some(snaps[0])
    else
      var r := SnapFile(snaps[1..], filename);
      assert forall k :: 0 < k < |snaps| ==> snaps[k] == snaps[1..][k - 1];
      if r.Some? then
        var k :| 0 <= k < |snaps[1..]| && snaps[1..][k] == r.value && SnapshotOf(snaps[1..][k], filename)
          && forall j :: 0 <= j < k ==> !SnapshotOf(snaps[1..][j], filename);
        assert snaps[k + 1] == r.value && forall j :: 0 <= j < k + 1 ==> !SnapshotOf(snaps[j], filename);
        r
      else r
  }

  /** The last component of a path is what follows its last slash. */
  lemma {:induction false} AfterLastSlash(dir: string, name: string)
    requires '/' !in name
    ensures AfterLast(dir + "/" + name, '/') == name
  {
    var s := dir + "/" + name;
    if |dir| == 0 {
      assert s == "/" + name && s[1..] == name;
      AfterLastWithoutSeparator(name, '/');
    } else {
      assert s[1..] == dir[1..] + "/" + name;
      assert '/' in s[1..] by {
        assert s[1..][|dir| - 1] == '/';
      }
      AfterLastSlash(dir[1..], name);
    }
  }

  /** The snapshot a test runner writes for a test file, `<dir>/<name>.snap`, is the one
      found for any document named `<name>`, wherever it lies. */
  lemma {:induction false} SnapshotOfItsTest(dir: string, name: string, docDir: string)
    requires |name| > 0 && '/' !in name
    ensures SnapshotOf(dir + "/" + name + SnapshotSuffix, docDir + "/" + name)
  {
    var snap := dir + "/" + name + SnapshotSuffix;
    assert snap == dir + "/" + (name + SnapshotSuffix);
    assert '/' !in SnapshotSuffix;
    AfterLastSlash(dir, name + SnapshotSuffix);
    AfterLastSlash(docDir, name);
    var b := name + SnapshotSuffix;
    assert b[|b| - 1] != '/';
    assert Basename(snap) == b;
    assert Basename(docDir + "/" + name) == name by {
      assert (docDir + "/" + name)[|docDir + "/" + name| - 1] == name[|name| - 1];
    }
    assert b[|b| - |SnapshotSuffix|..] == SnapshotSuffix;
    assert snap != SnapshotSuffix by {
      assert |snap| > |SnapshotSuffix|;
    }
    assert b[..|b| - |SnapshotSuffix|] == name;
  }

  /** Once such a snapshot is recorded, the lookup finds a snapshot for the document. */
  lemma {:induction false} LookupFindsRecordedSnapshot(snaps: seq<string>, dir: string, name: string, docDir: string)
    requires |name| > 0 && '/' !in name
    requires dir + "/" + name + SnapshotSuffix in snaps
    ensures SnapFile(snaps, docDir + "/" + name).Some?
  {
    var k :| 0 <= k < |snaps| && snaps[k] == dir + "/" + name + SnapshotSuffix;
    SnapshotOfItsTest(dir, name, docDir);
  }

  /** `provideHover(document, position, token)`: it starts the snapshot scan and looks up
      the document's snapshot, but always answers `:+1:`. The scan completes after the
      lookup, so the lookup sees the snapshots recorded before this hover. */
  method ProvideHover(provider: LinkMockHoverProvider, fileName: string, found: Option<seq<SnapshotFile>>)
    returns (after: LinkMockHoverProvider, looked: Option<string>, content: string)
    ensures content == ":+1:"
    ensures looked == SnapFile(provider.snaps, fileName)
    ensures |provider.snaps| > 0 ==> after == provider
    ensures |provider.snaps| == 0 ==> looked.None?
    ensures |provider.snaps| == 0 && found.Some? ==> after.snaps == Accepted(found.value)
  {
    looked := SnapFile(provider.snaps, fileName);
    after := GetSnapFiles(provider, found);
    content := ":+1:";
  }
}
