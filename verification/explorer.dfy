/** The mock explorer's pure decisions: which directories are known to hold recorded JSON
    files, which children of a directory it lists, and the label it gives each child.
    The file system enters as two inputs: a directory listing per directory (what
    `fs.readdirSync` returns) and a stat result per path (what `fs.statSync` returns). A path
    missing from either is the exception those calls throw, modelled as an error. */
module MockExplorer {
  import opened StringUtils

  /** The part of a `fs.Stats` object the explorer reads. */
  datatype Stat = Stat(isFile: bool, isDirectory: bool)

  /** The explorer's state: the paths of the JSON files found in the workspace. */
  datatype Explorer = Explorer(locationOfJsons: seq<string>)

  /** Some recorded location holds `directory` as a substring. */
  predicate Known(locations: seq<string>, directory: string) {
    exists k :: 0 <= k < |locations| && Contains(locations[k], directory)
  }

  /** `directoryIsKnownToContainJson(directory)`: an or over every recorded location of
      `location.indexOf(directory) > -1`. */
  method DirectoryIsKnownToContainJson(e: Explorer, directory: string) returns (known: bool)
    ensures known <==> exists k :: 0 <= k < |e.locationOfJsons| && Contains(e.locationOfJsons[k], directory)
  {
    known := false;
    var i := 0;
    while i < |e.locationOfJsons|
      invariant 0 <= i <= |e.locationOfJsons|
      invariant known <==> exists k :: 0 <= k < i && Contains(e.locationOfJsons[k], directory)
    {
      IndexOfContains(e.locationOfJsons[i], directory);
      known := known || IndexOf(e.locationOfJsons[i], directory, 0) > -1;
      i := i + 1;
    }
  }

  /** Nothing is known before the first refresh; once anything is recorded, the empty
      directory name is known, since every string contains it. */
  lemma {:induction false} KnownEdgeCases(locations: seq<string>)
    ensures !Known([], "")
    ensures |locations| > 0 <==> Known(locations, "")
  {
    if |locations| > 0 {
      assert IsAt(locations[0], 0, "");
    }
  }

  /** Every recorded location is known, and so is every part of it. */
  lemma {:induction false} KnownParts(locations: seq<string>, k: nat, i: nat, j: nat)
    requires k < |locations| && i <= j <= |locations[k]|
    ensures Known(locations, locations[k][i..j])
  {
    assert IsAt(locations[k], i, locations[k][i..j]);
  }

  /** `hardRefresh()`: the paths found in the workspace are appended to the recorded
      locations; nothing recorded is ever removed. */
  function HardRefresh(e: Explorer, found: seq<string>): (r: Explorer)
    ensures |r.locationOfJsons| == |e.locationOfJsons| + |found|
    ensures e.locationOfJsons <= r.locationOfJsons
    ensures forall k :: 0 <= k < |found| ==> r.locationOfJsons[|e.locationOfJsons| + k] == found[k]
  {
    Explorer(e.locationOfJsons + found)
  }

  /** A refresh keeps every known directory known, and makes every found path known. */
  lemma {:induction false} RefreshKeepsKnown(e: Explorer, found: seq<string>, d: string)
    ensures Known(e.locationOfJsons, d) ==> Known(HardRefresh(e, found).locationOfJsons, d)
    ensures d in found ==> Known(HardRefresh(e, found).locationOfJsons, d)
  {
    var r := HardRefresh(e, found).locationOfJsons;
    if Known(e.locationOfJsons, d) {
      var k :| 0 <= k < |e.locationOfJsons| && Contains(e.locationOfJsons[k], d);
      assert r[k] == e.locationOfJsons[k];
    }
    if d in found {
      var k :| 0 <= k < |found| && found[k] == d;
      assert r[|e.locationOfJsons| + k] == d;
      assert IsAt(d, 0, d);
    }
  }

  /** The directory `getJsons` lists: the empty root stays empty, a root ending in a slash
      is kept, and any other root gets one slash appended. */
  function TrailingSlash(rootDir: string): (dir: string)
    ensures |rootDir| == 0 ==> dir == ""
    ensures |rootDir| > 0 ==> EndsWith(dir, "/") && StartsWith(dir, rootDir)
    ensures |rootDir| <= |dir| <= |rootDir| + 1
    ensures EndsWith(rootDir, "/") ==> dir == rootDir
  {
    if |rootDir| == 0 then ""
    else if EndsWith(rootDir, "/") then rootDir
    else rootDir + "/"
  }

  /** Normalising twice is normalising once, and a root that lacks the slash gains exactly
      one. */
  lemma {:induction false} TrailingSlashIdempotent(rootDir: string)
    ensures TrailingSlash(TrailingSlash(rootDir)) == TrailingSlash(rootDir)
    ensures |rootDir| > 0 && !EndsWith(rootDir, "/") ==> TrailingSlash(rootDir) == rootDir + "/"
  {
  }

  /** `isJsonFile(fp, directoryOK)`: false without a path; otherwise a regular file whose
      name ends in `.json`, or a directory when directories are accepted. */
  function IsJsonFile(fp: Option<string>, stat: map<string, Stat>, directoryOK: bool): (r: Result<bool, string>)
    ensures fp.None? ==> r == Ok(false)
    ensures fp.Some? ==> (r.Err? <==> fp.value !in stat)
    ensures r.Ok? && r.value && !directoryOK ==> fp.Some? && EndsWith(fp.value, ".json") && stat[fp.value].isFile
    ensures r.Ok? && r.value ==> fp.Some? && (stat[fp.value].isFile || stat[fp.value].isDirectory)
    ensures r.Ok? && r.value && !stat[fp.value].isDirectory ==> stat[fp.value].isFile && EndsWith(fp.value, ".json")
    ensures fp.Some? && fp.value in stat && stat[fp.value].isFile && EndsWith(fp.value, ".json") ==> r == Ok(true)
    ensures fp.Some? && fp.value in stat && directoryOK && stat[fp.value].isDirectory ==> r == Ok(true)
  {
    match fp
    case None => Ok(false)
    case Some(p) =>
      if p !in stat then Err("ENOENT: no such file or directory, stat '" + p + "'")
      else Ok((stat[p].isFile && EndsWith(p, ".json")) || (directoryOK && stat[p].isDirectory))
  }

  /** A child the explorer lists: known to hold JSON, and a JSON file or a directory. */
  predicate Listed(locations: seq<string>, stat: map<string, Stat>, p: string) {
    Known(locations, p) && p in stat && ((stat[p].isFile && EndsWith(p, ".json")) || stat[p].isDirectory)
  }

  /** A known path is listed exactly when `isJsonFile` accepts it with directories allowed. */
  lemma {:induction false} ListedIsAcceptedJson(locations: seq<string>, stat: map<string, Stat>, p: string)
    requires Known(locations, p)
    ensures Listed(locations, stat, p) <==> IsJsonFile(Some(p), stat, true) == Ok(true)
    ensures p !in stat <==> IsJsonFile(Some(p), stat, true).Err?
  {
  }

  /** The filter of `getJsons`: unknown paths are dropped before any stat, so only a known
      path without a stat fails; the others are kept in order when `isJsonFile` accepts
      them with directories allowed. */
  function FilterJsons(locations: seq<string>, paths: seq<string>, stat: map<string, Stat>): (r: Result<seq<string>, string>)
    ensures r.Err? <==> exists k :: 0 <= k < |paths| && Known(locations, paths[k]) && paths[k] !in stat
    ensures r.Ok? ==> |r.value| <= |paths|
    ensures r.Ok? ==> forall p :: p in r.value <==> p in paths && Listed(locations, stat, p)
  {
    if |paths| == 0 then Ok([])
    else
      var p := paths[0];
      var rest := FilterJsons(locations, paths[1..], stat);
      assert forall k :: 0 < k < |paths| ==> paths[k] == paths[1..][k - 1];
      if !Known(locations, p) then rest
      else
        match IsJsonFile(Some(p), stat, true)
        case Err(e) => Err(e)
        case Ok(keep) =>
          if rest.Err? then rest
          else if keep then Ok([p] + rest.value)
          else rest
  }

  /** `path.join(dir, name)` for a directory that is empty or ends in a slash and a plain
      entry name: the two are concatenated. */
  function Join(dir: string, name: string): (r: string)
    ensures |r| == |dir| + |name|
    ensures StartsWith(r, dir)
  {
    assert (dir + name)[..|dir|] == dir;
    dir + name
  }

  /** The paths of a directory's entries. */
  function Children(dir: string, names: seq<string>): (r: seq<string>)
    ensures |r| == |names|
    ensures forall k :: 0 <= k < |names| ==> r[k] == Join(dir, names[k])
  {
    seq(|names|, k requires 0 <= k < |names| => Join(dir, names[k]))
  }

  /** `getJsons(rootDir)`. It returns nothing for an undefined root or an unknown
      directory, and fails when the directory cannot be listed or a known child cannot be
      stat'ed; otherwise it returns the listed children. */
  function GetJsons(e: Explorer, rootDir: Option<string>, readdir: map<string, seq<string>>, stat: map<string, Stat>): (r: Result<seq<string>, string>)
    ensures rootDir.None? ==> r == Ok([])
    ensures rootDir.Some? && !Known(e.locationOfJsons, TrailingSlash(rootDir.value)) ==> r == Ok([])
    ensures rootDir.Some? && Known(e.locationOfJsons, TrailingSlash(rootDir.value)) ==>
      var dir := TrailingSlash(rootDir.value);
      (dir !in readdir ==> r.Err?)
      && (dir in readdir ==>
        (r.Err? <==> exists p :: p in Children(dir, readdir[dir]) && Known(e.locationOfJsons, p) && p !in stat))
      && (dir in readdir && r.Ok? ==>
        forall p :: p in r.value <==> p in Children(dir, readdir[dir]) && Listed(e.locationOfJsons, stat, p))
    ensures r.Ok? ==> forall p :: p in r.value ==> Listed(e.locationOfJsons, stat, p)
  {
    match rootDir
    case None => Ok([])
    case Some(root) =>
      var dir := TrailingSlash(root);
      if !Known(e.locationOfJsons, dir) then Ok([])
      else if dir !in readdir then Err("ENOENT: no such file or directory, scandir '" + dir + "'")
      else FilterJsons(e.locationOfJsons, Children(dir, readdir[dir]), stat)
  }

  /** `trimToFolderOrFileBeneath(filepath, rootDir)`: the first occurrence of the root is
      removed (nothing is removed for an undefined or empty root) and the segment after the
      first slash is the label, undefined when no slash remains. */
  function TrimToFolderOrFileBeneath(filepath: string, rootDir: Option<string>): (segment: Option<string>)
    ensures segment.Some? ==> '/' !in segment.value
    ensures (rootDir.None? || rootDir.value == "") ==> (segment.Some? <==> '/' in filepath)
  {
    var noRoot := if rootDir.Some? && |rootDir.value| > 0 then ReplaceFirst(filepath, rootDir.value, "") else filepath;
    var parts := Split(noRoot, '/');
    if |parts| < 2 then None else Some(parts[1])
  }

  /** Removing the root from a path that starts with it leaves the rest of the path. */
  lemma {:induction false} ReplaceLeadingRoot(root: string, rest: string)
    requires |root| > 0
    ensures ReplaceFirst(root + rest, root, "") == rest
  {
    var s := root + rest;
    assert IsAt(s, 0, root);
    assert Contains(s, root);
    var i :| 0 <= i <= |s| - |root| && IsAt(s, i, root)
      && ReplaceFirst(s, root, "") == s[..i] + "" + s[i + |root|..]
      && forall j :: 0 <= j < i ==> !IsAt(s, j, root);
    assert i == 0;
    assert s[|root|..] == rest;
  }

  /** The label of an entry directly beneath a root given without its trailing slash is the
      entry's name: the slash that remains after the root is removed is why the label is
      segment 1. */
  lemma {:induction false} LabelOfEntryBeneath(root: string, name: string)
    requires |root| > 0 && '/' !in name
    ensures TrimToFolderOrFileBeneath(root + "/" + name, Some(root)) == Some(name)
  {
    assert root + "/" + name == root + ("/" + name);
    ReplaceLeadingRoot(root, "/" + name);
    SlashThenName(name);
  }

  /** A slash followed by a name without slashes splits into the empty string and the name. */
  lemma {:induction false} SlashThenName(name: string)
    requires '/' !in name
    ensures Split("/" + name, '/') == ["", name]
  {
    assert Count(name, '/') == 0;
    SplitHead(name, '/');
    assert name[..|name|] == name;
    BeforeFirstKeepsPrefix(name, name, '/');
    var b := BeforeFirst(name, '/');
    assert |b| == |name| && b == b[..|name|];
    assert |Split(name, '/')| == 1 && Split(name, '/')[0] == name;
    assert Split(name, '/') == [name];
    assert ("/" + name)[1..] == name;
  }

  /** Given a root that already ends in a slash, an entry directly beneath it gets no label:
      no slash remains once the root is removed. */
  lemma {:induction false} NoLabelBeneathSlashedRoot(root: string, name: string)
    requires |root| > 0 && '/' !in name
    ensures TrimToFolderOrFileBeneath(root + name, Some(root)) == None
  {
    ReplaceLeadingRoot(root, name);
    assert Count(name, '/') == 0;
  }
}
