/** Building the entry list: from a manifest (FileList.txt) when one is present and wanted, from a
    directory walk otherwise; and writing a manifest back out. Models rust/src/indexer.rs and the
    two Python indexers (prototype/python/src/fast_file_finder/indexer.py and
    src/fast_file_finder/indexer.py). */
module Indexer {
  import opened Wrappers
  import opened Text
  import opened Seqs
  import opened Paths
  import opened FileSystem
  import opened Walker

  /** The implementations differ in how they split a manifest into lines and in how they print the
      root itself relative to the root. */
  datatype Dialect = RustIndexer | PythonIndexer

  /** Where the entries came from (`IndexSource`; the Python prototype's "filelist", "walker" and
      "none" strings together with its `filelist_path`). */
  datatype IndexSource = FileListSource(manifest: Path) | WalkerSource | NoSource

  datatype IndexBuildResult = IndexBuildResult(entries: seq<Path>, source: IndexSource)

  function Child(root: Path, name: string): Path {
    Join(root, Path(false, [name]))
  }

  // ---------------------------------------------------------------------------------------
  // Finding the manifest
  // ---------------------------------------------------------------------------------------

  /** "filelist.txt" in any ASCII case (`eq_ignore_ascii_case`; the reference name is already
      lower-case, so comparing lower-cased forms suffices). */
  predicate IsManifestName(name: string) {
    LowerStr(name) == "filelist.txt"
  }

  /** A directory entry that is a regular file (links followed) with a manifest name. */
  predicate IsManifestEntry(n: Node) {
    n.target == Some(File) && IsManifestName(FileName(n.path))
  }

  /** The first manifest entry of a listing, in listing order. */
  function FirstManifest(ns: seq<Node>): (r: Option<Path>)
    ensures r.None? <==> forall i :: 0 <= i < |ns| ==> !IsManifestEntry(ns[i])
    ensures r.Some? ==> exists i :: 0 <= i < |ns| && IsManifestEntry(ns[i]) && ns[i].path == r.value
                                    && forall j :: 0 <= j < i ==> !IsManifestEntry(ns[j])
  {
    if ns == [] then None
    else if IsManifestEntry(ns[0]) then Some(ns[0].path)
    else
      var r := FirstManifest(ns[1..]);
      assert forall i :: 1 <= i < |ns| ==> ns[i] == ns[1..][i - 1];
      if r.Some? then
        ghost var i :| 0 <= i < |ns[1..]| && IsManifestEntry(ns[1..][i]) && ns[1..][i].path == r.value
                      && forall j :: 0 <= j < i ==> !IsManifestEntry(ns[1..][j]);
        assert IsManifestEntry(ns[i + 1]) && ns[i + 1].path == r.value;
        assert forall j :: 0 <= j < i + 1 ==> !IsManifestEntry(ns[j]) by {
          forall j | 0 <= j < i + 1 ensures !IsManifestEntry(ns[j]) {
            if j > 0 { assert ns[j] == ns[1..][j - 1]; }
          }
        }
        r
      else r
  }

  /** The manifest candidates of `root` in listing order are present. */
  predicate ListsManifest(fs: FileSystem, root: Path) {
    ListDir(fs, root).Listed? && exists i :: 0 <= i < |ListDir(fs, root).entries| && IsManifestEntry(ListDir(fs, root).entries[i])
  }

  /** `find_filelist` (Rust): "FileList.txt", else "filelist.txt", else the first entry of the root
      whose name matches ignoring ASCII case; an unreadable root has none. */
  function FindFileList(fs: FileSystem, root: Path): (r: Option<Path>)
    ensures IsFile(fs, Child(root, "FileList.txt")) ==> r == Some(Child(root, "FileList.txt"))
    ensures !IsFile(fs, Child(root, "FileList.txt")) && IsFile(fs, Child(root, "filelist.txt")) ==>
      r == Some(Child(root, "filelist.txt"))
    ensures r.None? <==>
      !IsFile(fs, Child(root, "FileList.txt")) && !IsFile(fs, Child(root, "filelist.txt")) && !ListsManifest(fs, root)
    ensures r.Some? && r.value != Child(root, "FileList.txt") && r.value != Child(root, "filelist.txt") ==>
      exists i :: 0 <= i < |ListDir(fs, root).entries| && ListDir(fs, root).Listed?
        && IsManifestEntry(ListDir(fs, root).entries[i]) && ListDir(fs, root).entries[i].path == r.value
  {
    var upper := Child(root, "FileList.txt");
    var lower := Child(root, "filelist.txt");
    if IsFile(fs, upper) then Some(upper)
    else if IsFile(fs, lower) then Some(lower)
    else match ListDir(fs, root)
      case Listed(ns) => FirstManifest(ns)
      case _ => None
  }

  /** `find_filelist` (both Python packages): the same search, except that a root that cannot be
      listed raises instead of yielding no manifest. */
  function FindFileListPython(fs: FileSystem, root: Path): (r: Result<Option<Path>>)
    ensures r.Err? <==>
      !IsFile(fs, Child(root, "FileList.txt")) && !IsFile(fs, Child(root, "filelist.txt")) && !ListDir(fs, root).Listed?
    ensures r.Ok? ==> r.value == FindFileList(fs, root)
  {
    if IsFile(fs, Child(root, "FileList.txt")) || IsFile(fs, Child(root, "filelist.txt")) || ListDir(fs, root).Listed? then
      Ok(FindFileList(fs, root))
    else Err("cannot list directory")
  }

  // ---------------------------------------------------------------------------------------
  // Reading a manifest
  // ---------------------------------------------------------------------------------------

  /** `text.lines()` in Rust, `str.splitlines()` in Python. */
  function ManifestLines(d: Dialect, text: string): seq<string> {
    match d
    case RustIndexer => Lines(text)
    case PythonIndexer => SplitLines(text)
  }

  /** The path one manifest line names: blank lines and lines starting with '#' name none; a
      relative path is taken from the root; the result is canonicalised where possible. */
  function LineTarget(fs: FileSystem, root: Path, line: string): Option<Path> {
    var t := Trim(line);
    if t == [] || t[0] == '#' then None
    else Some(Canon(fs, Join(root, Parse(t))))
  }

  /** The include flags: a path must exist, and files and directories are kept only when asked for. */
  predicate Admitted(fs: FileSystem, p: Path, includeFiles: bool, includeDirs: bool) {
    Exists(fs, p) && (IsFile(fs, p) ==> includeFiles) && (IsDir(fs, p) ==> includeDirs)
  }

  /** The target of each line, in order. */
  function Targets(fs: FileSystem, root: Path, lines: seq<string>): (ts: seq<Option<Path>>)
    ensures |ts| == |lines|
    ensures forall i :: 0 <= i < |lines| ==> ts[i] == LineTarget(fs, root, lines[i])
  {
    if lines == [] then [] else Targets(fs, root, lines[..|lines| - 1]) + [LineTarget(fs, root, lines[|lines| - 1])]
  }

  /** The admitted targets, in order and with repetitions. */
  function Keep(fs: FileSystem, ts: seq<Option<Path>>, includeFiles: bool, includeDirs: bool): seq<Path> {
    if ts == [] then []
    else
      var prev := Keep(fs, ts[..|ts| - 1], includeFiles, includeDirs);
      var t := ts[|ts| - 1];
      if t.Some? && Admitted(fs, t.value, includeFiles, includeDirs) then prev + [t.value] else prev
  }

  lemma {:induction false} KeepMembers(fs: FileSystem, ts: seq<Option<Path>>, includeFiles: bool, includeDirs: bool, p: Path)
    ensures p in Keep(fs, ts, includeFiles, includeDirs) <==>
      (exists i :: 0 <= i < |ts| && ts[i] == Some(p)) && Admitted(fs, p, includeFiles, includeDirs)
    decreases |ts|
  {
    if ts != [] {
      var init := ts[..|ts| - 1];
      KeepMembers(fs, init, includeFiles, includeDirs, p);
      if exists i :: 0 <= i < |init| && init[i] == Some(p) {
        var i :| 0 <= i < |init| && init[i] == Some(p);
        assert ts[i] == init[i];
      }
      if exists i :: 0 <= i < |ts| && ts[i] == Some(p) {
        var i :| 0 <= i < |ts| && ts[i] == Some(p);
        if i < |init| {
          assert init[i] == ts[i];
        }
      }
    }
  }

  lemma TargetsSnoc(fs: FileSystem, root: Path, lines: seq<string>, line: string)
    ensures Targets(fs, root, lines + [line]) == Targets(fs, root, lines) + [LineTarget(fs, root, line)]
  {
    assert (lines + [line])[..|lines|] == lines;
  }

  lemma KeepSnoc(fs: FileSystem, ts: seq<Option<Path>>, t: Option<Path>, includeFiles: bool, includeDirs: bool)
    ensures Keep(fs, ts + [t], includeFiles, includeDirs)
      == Keep(fs, ts, includeFiles, includeDirs)
         + (if t.Some? && Admitted(fs, t.value, includeFiles, includeDirs) then [t.value] else [])
  {
    assert (ts + [t])[..|ts|] == ts;
  }

  /** Keeping the targets of a prefix of the lines keeps a prefix of what all lines keep. */
  lemma {:induction false} KeepPrefix(fs: FileSystem, ts: seq<Option<Path>>, n: nat, includeFiles: bool, includeDirs: bool)
    requires n <= |ts|
    ensures Keep(fs, ts[..n], includeFiles, includeDirs) <= Keep(fs, ts, includeFiles, includeDirs)
    decreases |ts|
  {
    if n < |ts| {
      var init := ts[..|ts| - 1];
      assert init[..n] == ts[..n];
      KeepPrefix(fs, init, n, includeFiles, includeDirs);
    } else {
      assert ts[..n] == ts;
    }
  }

  /** An admitted target is kept right after everything kept before it. */
  lemma KeepAt(fs: FileSystem, ts: seq<Option<Path>>, b: nat, includeFiles: bool, includeDirs: bool)
    requires b < |ts| && ts[b].Some? && Admitted(fs, ts[b].value, includeFiles, includeDirs)
    ensures Keep(fs, ts[..b], includeFiles, includeDirs) + [ts[b].value] <= Keep(fs, ts, includeFiles, includeDirs)
  {
    assert ts[..b + 1] == ts[..b] + [ts[b]];
    KeepSnoc(fs, ts[..b], ts[b], includeFiles, includeDirs);
    KeepPrefix(fs, ts, b + 1, includeFiles, includeDirs);
  }

  /** The kept targets come out in the order of their first occurrence: wherever a later result
      occurs, every earlier result has occurred before it. */
  lemma KeptInFirstSeenOrder(fs: FileSystem, ts: seq<Option<Path>>, includeFiles: bool, includeDirs: bool,
                             i: nat, j: nat, b: nat)
    requires var r := Dedup(Keep(fs, ts, includeFiles, includeDirs));
      i < j < |r| && b < |ts| && ts[b] == Some(r[j])
    ensures var r := Dedup(Keep(fs, ts, includeFiles, includeDirs));
      exists a :: 0 <= a < b && ts[a] == Some(r[i])
  {
    var k := Keep(fs, ts, includeFiles, includeDirs);
    var r := Dedup(k);
    var x := r[i];
    assert Admitted(fs, r[j], includeFiles, includeDirs) by {
      KeepMembers(fs, ts, includeFiles, includeDirs, r[j]);
    }
    var before := Keep(fs, ts[..b], includeFiles, includeDirs);
    KeepAt(fs, ts, b, includeFiles, includeDirs);
    assert k[|before|] == r[j];
    assert x in before by {
      DedupFirstSeen(k, i, j, |before|);
      var a' :| 0 <= a' < |before| && k[a'] == x;
      assert before[a'] == x;
    }
    KeepMembers(fs, ts[..b], includeFiles, includeDirs, x);
    var a :| 0 <= a < |ts[..b]| && ts[..b][a] == Some(x);
    assert ts[a] == Some(x);
  }

  /** The kept targets are listed in the order of their first occurrence. */
  lemma KeptInOrder(fs: FileSystem, ts: seq<Option<Path>>, includeFiles: bool, includeDirs: bool)
    ensures forall i, j :: 0 <= i < j < |Dedup(Keep(fs, ts, includeFiles, includeDirs))| ==>
      var r := Dedup(Keep(fs, ts, includeFiles, includeDirs));
      Some(r[i]) in ts && Some(r[j]) in ts && FirstIndex(ts, Some(r[i])) < FirstIndex(ts, Some(r[j]))
  {
    var r := Dedup(Keep(fs, ts, includeFiles, includeDirs));
    forall i, j | 0 <= i < j < |r|
      ensures Some(r[i]) in ts && Some(r[j]) in ts && FirstIndex(ts, Some(r[i])) < FirstIndex(ts, Some(r[j]))
    {
      KeepMembers(fs, ts, includeFiles, includeDirs, r[i]);
      KeepMembers(fs, ts, includeFiles, includeDirs, r[j]);
      KeptInFirstSeenOrder(fs, ts, includeFiles, includeDirs, i, j, FirstIndex(ts, Some(r[j])));
    }
  }

  /** A path is read from the lines exactly when some line names it and it is admitted. */
  lemma ReadMembers(fs: FileSystem, root: Path, lines: seq<string>, includeFiles: bool, includeDirs: bool)
    ensures forall p :: p in Dedup(Keep(fs, Targets(fs, root, lines), includeFiles, includeDirs)) <==>
      exists i :: 0 <= i < |lines| && LineTarget(fs, root, lines[i]) == Some(p) && Admitted(fs, p, includeFiles, includeDirs)
  {
    var ts := Targets(fs, root, lines);
    forall p ensures p in Dedup(Keep(fs, ts, includeFiles, includeDirs)) <==>
      exists i :: 0 <= i < |lines| && LineTarget(fs, root, lines[i]) == Some(p) && Admitted(fs, p, includeFiles, includeDirs)
    {
      KeepMembers(fs, ts, includeFiles, includeDirs, p);
    }
  }

  /** `parse_filelist`: the admitted targets of the manifest's lines, each once, in the order of
      their first line. A manifest that cannot be read is an error. The legacy Python package's
      version has no flags and behaves as this one with both flags on. */
  function ParseFileList(fs: FileSystem, d: Dialect, manifest: Path, root: Path, includeFiles: bool, includeDirs: bool)
    : (r: Result<seq<Path>>)
    ensures r.Err? <==> manifest !in fs.texts
    ensures r.Ok? ==> NoDups(r.value)
    ensures r.Ok? ==> forall p :: p in r.value <==>
      exists i :: 0 <= i < |ManifestLines(d, fs.texts[manifest])|
        && LineTarget(fs, root, ManifestLines(d, fs.texts[manifest])[i]) == Some(p)
        && Admitted(fs, p, includeFiles, includeDirs)
    ensures r.Ok? ==> forall i, j :: 0 <= i < j < |r.value| ==>
      var ts := Targets(fs, root, ManifestLines(d, fs.texts[manifest]));
      Some(r.value[i]) in ts && Some(r.value[j]) in ts && FirstIndex(ts, Some(r.value[i])) < FirstIndex(ts, Some(r.value[j]))
  {
    if manifest !in fs.texts then Err("failed to read manifest")
    else
      var lines := ManifestLines(d, fs.texts[manifest]);
      var ts := Targets(fs, root, lines);
      ReadMembers(fs, root, lines, includeFiles, includeDirs);
      KeptInOrder(fs, ts, includeFiles, includeDirs);
      Ok(Dedup(Keep(fs, ts, includeFiles, includeDirs)))
  }

  // ---------------------------------------------------------------------------------------
  // Building the index
  // ---------------------------------------------------------------------------------------

  /** `build_index_with_metadata` (Rust). With both flags off nothing is indexed and the root is not
      even canonicalised. Otherwise the canonical root's manifest is used when wanted and present
      (an unreadable manifest is an error), and the walk is used otherwise. */
  function BuildIndexWithMetadata(fs: FileSystem, root: Path, useFileList: bool, includeFiles: bool, includeDirs: bool)
    : (r: Result<IndexBuildResult>)
    ensures !includeFiles && !includeDirs ==> r == Ok(IndexBuildResult([], NoSource))
    ensures r.Err? <==> (includeFiles || includeDirs) && useFileList && FindFileList(fs, Canon(fs, root)).Some?
                        && FindFileList(fs, Canon(fs, root)).value !in fs.texts
    ensures r.Ok? ==> (r.value.source.FileListSource? <==>
      (includeFiles || includeDirs) && useFileList && FindFileList(fs, Canon(fs, root)).Some?)
    ensures r.Ok? ==> (r.value.source == WalkerSource <==>
      (includeFiles || includeDirs) && (!useFileList || FindFileList(fs, Canon(fs, root)).None?))
    ensures r.Ok? && r.value.source.FileListSource? ==>
      && FindFileList(fs, Canon(fs, root)) == Some(r.value.source.manifest)
      && r.value.entries
         == ParseFileList(fs, RustIndexer, r.value.source.manifest, Canon(fs, root), includeFiles, includeDirs).value
      && forall p :: p in r.value.entries ==> Admitted(fs, p, includeFiles, includeDirs)
    ensures r.Ok? && r.value.source == WalkerSource ==> forall p :: p in r.value.entries <==>
      (includeFiles && p in Walk(fs, Canon(fs, root)).files) || (includeDirs && p in Walk(fs, Canon(fs, root)).dirs)
  {
    if !includeFiles && !includeDirs then Ok(IndexBuildResult([], NoSource))
    else
      var root := Canon(fs, root);
      var manifest := if useFileList then FindFileList(fs, root) else None;
      if manifest.Some? then
        match ParseFileList(fs, RustIndexer, manifest.value, root, includeFiles, includeDirs)
        case Err(e) => Err(e)
        case Ok(entries) => Ok(IndexBuildResult(entries, FileListSource(manifest.value)))
      else Ok(IndexBuildResult(WalkEntries(fs, root, includeFiles, includeDirs), WalkerSource))
  }

  /** The prototype's index from a manifest that was found: the parsed entries, or the read error. */
  method FromManifestPrototype(fs: FileSystem, manifest: Path, root: Path, includeFiles: bool, includeDirs: bool)
    returns (r: Result<IndexBuildResult>)
    ensures r.Err? <==> manifest !in fs.texts
    ensures r.Ok? ==> r.value == IndexBuildResult(
      ParseFileList(fs, PythonIndexer, manifest, root, includeFiles, includeDirs).value, FileListSource(manifest))
  {
    var parsed := ParseFileList(fs, PythonIndexer, manifest, root, includeFiles, includeDirs);
    if parsed.Err? {
      return Err(parsed.message);
    }
    return Ok(IndexBuildResult(parsed.value, FileListSource(manifest)));
  }

  /** The prototype's index from a walk: `_walk` resolves the root once more, and a root that does
      not exist raises. */
  method FromWalkPrototype(fs: FileSystem, root: Path, includeFiles: bool, includeDirs: bool)
    returns (r: Result<IndexBuildResult>)
    ensures r.Err? <==> ListDir(fs, Canon(fs, root)).NotFound?
    ensures r.Ok? ==> r.value.source == WalkerSource
    ensures r.Ok? && ListDir(fs, Canon(fs, root)).Listed? ==>
      multiset(r.value.entries) ==
        (if includeFiles then multiset(PyFiles(ListDir(fs, Canon(fs, root)).entries)) else multiset{})
        + (if includeDirs then multiset(PyDirs(ListDir(fs, Canon(fs, root)).entries)) else multiset{})
    ensures r.Ok? && !ListDir(fs, Canon(fs, root)).Listed? ==> r.value.entries == []
  {
    var walked := WalkEntriesPrototype(fs, root, includeFiles, includeDirs);
    if walked.Err? {
      return Err(walked.message);
    }
    return Ok(IndexBuildResult(walked.value, WalkerSource));
  }

  /** `build_index_with_metadata` of the Python prototype. The root is resolved first; the manifest
      search raises where the Rust one quietly finds nothing, and so does the walk of a root that
      does not exist. The walk resolves the already resolved root again. */
  method BuildIndexWithMetadataPrototype(fs: FileSystem, root: Path, useFileList: bool, includeFiles: bool, includeDirs: bool)
    returns (r: Result<IndexBuildResult>)
    ensures !includeFiles && !includeDirs ==> r == Ok(IndexBuildResult([], NoSource))
    ensures (includeFiles || includeDirs) && useFileList && FindFileListPython(fs, Canon(fs, root)).Err? ==> r.Err?
    ensures (includeFiles || includeDirs) && useFileList && FindFileList(fs, Canon(fs, root)).Some? ==>
      var manifest := FindFileList(fs, Canon(fs, root)).value;
      && (r.Err? <==> manifest !in fs.texts)
      && (r.Ok? ==> r.value == IndexBuildResult(
            ParseFileList(fs, PythonIndexer, manifest, Canon(fs, root), includeFiles, includeDirs).value,
            FileListSource(manifest)))
    ensures (includeFiles || includeDirs) && (!useFileList || FindFileListPython(fs, Canon(fs, root)) == Ok(None)) ==>
      var top := ListDir(fs, Canon(fs, Canon(fs, root)));
      && (r.Err? <==> top.NotFound?)
      && (r.Ok? ==> r.value.source == WalkerSource)
      && (r.Ok? && top.Listed? ==>
            multiset(r.value.entries) ==
              (if includeFiles then multiset(PyFiles(top.entries)) else multiset{})
              + (if includeDirs then multiset(PyDirs(top.entries)) else multiset{}))
  {
    var root := Canon(fs, root);
    if !includeFiles && !includeDirs {
      return Ok(IndexBuildResult([], NoSource));
    }
    var manifest: Option<Path> := None;
    if useFileList {
      var found := FindFileListPython(fs, root);
      if found.Err? {
        return Err(found.message);
      }
      manifest := found.value;
    }
    if manifest.Some? {
      r := FromManifestPrototype(fs, manifest.value, root, includeFiles, includeDirs);
    } else {
      r := FromWalkPrototype(fs, root, includeFiles, includeDirs);
    }
  }

  /** `build_index` of the legacy Python package: the manifest when present, read with both kinds
      of entry kept; the single-list walk (which resolves the root again) otherwise. */
  method BuildIndexLegacy(fs: FileSystem, root: Path) returns (r: Result<seq<Path>>)
    ensures FindFileListPython(fs, Canon(fs, root)).Err? ==> r.Err?
    ensures FindFileList(fs, Canon(fs, root)).Some? ==>
      r == ParseFileList(fs, PythonIndexer, FindFileList(fs, Canon(fs, root)).value, Canon(fs, root), true, true)
    ensures FindFileListPython(fs, Canon(fs, root)) == Ok(None) ==>
      var top := ListDir(fs, Canon(fs, Canon(fs, root)));
      && (r.Err? <==> top.NotFound?)
      && (r.Ok? && top.Listed? ==> multiset(r.value) == multiset(PyFiles(top.entries)) + multiset(PyDirs(top.entries)))
  {
    var root := Canon(fs, root);
    var found := FindFileListPython(fs, root);
    if found.Err? {
      return Err(found.message);
    }
    if found.value.Some? {
      return ParseFileList(fs, PythonIndexer, found.value.value, root, true, true);
    }
    r := WalkEntriesLegacy(fs, root);
  }

  // ---------------------------------------------------------------------------------------
  // Writing a manifest
  // ---------------------------------------------------------------------------------------

  /** The line for one canonical entry as the implementations choose it: relative to the canonical
      root when it lies under it, absolute otherwise. Python prints the root itself as "."; Rust
      prints it as "". */
  function LineFor(d: Dialect, e: Path, root: Path): string {
    match StripPrefix(e, root)
    case Some(rel) => if d == PythonIndexer && rel.parts == [] then "." else ToString(rel)
    case None => ToString(e)
  }

  /** The root's own line: "." in Python, the empty line in Rust. */
  lemma LineForRoot(d: Dialect, root: Path)
    ensures LineFor(d, root, root) == if d == PythonIndexer then "." else ""
  {
    StripSelf(root);
    var rel := Path(false, []);
    assert ToString(rel) == "";
  }

  /** The repaired line: a relative line that the reader would skip (empty, or starting with '#')
      or trim (starting with whitespace) is replaced by the absolute path. */
  function LineForCorrected(d: Dialect, e: Path, root: Path): (l: string)
    ensures e.absolute ==> l != [] && l[0] != '#' && !IsSpace(l[0])
    ensures LineFor(d, e, root) != [] && LineFor(d, e, root)[0] != '#' && !IsSpace(LineFor(d, e, root)[0]) ==>
      l == LineFor(d, e, root)
  {
    var l := LineFor(d, e, root);
    if l == [] || l[0] == '#' || IsSpace(l[0]) then ToString(e) else l
  }

  /** Which of the two line choices a writer uses. */
  datatype LineStyle = AsWritten | AbsoluteWhenSkipped

  function LineIn(style: LineStyle, d: Dialect, e: Path, root: Path): string {
    match style
    case AsWritten => LineFor(d, e, root)
    case AbsoluteWhenSkipped => LineForCorrected(d, e, root)
  }

  /** Each entry canonicalised, in order. */
  function CanonAll(fs: FileSystem, entries: seq<Path>): (r: seq<Path>)
    ensures |r| == |entries|
    ensures forall i :: 0 <= i < |r| ==> r[i] == Canon(fs, entries[i])
  {
    if entries == [] then [] else CanonAll(fs, entries[..|entries| - 1]) + [Canon(fs, entries[|entries| - 1])]
  }

  /** The line of each (already canonical) entry, in order, with repetitions. */
  function LinesOf(d: Dialect, style: LineStyle, cs: seq<Path>, root: Path): (r: seq<string>)
    ensures |r| == |cs|
    ensures forall i :: 0 <= i < |r| ==> r[i] == LineIn(style, d, cs[i], root)
  {
    if cs == [] then [] else LinesOf(d, style, cs[..|cs| - 1], root) + [LineIn(style, d, cs[|cs| - 1], root)]
  }

  /** The lines `build_filelist_text` writes: each canonical entry's line relative to the canonical
      root, each distinct line once, in the order of the first entry that gives it. */
  function FileListLines(fs: FileSystem, d: Dialect, style: LineStyle, entries: seq<Path>, root: Path): (ls: seq<string>)
    ensures NoDups(ls)
    ensures forall l :: l in ls <==>
      exists i :: 0 <= i < |entries| && l == LineIn(style, d, Canon(fs, entries[i]), Canon(fs, root))
    ensures forall i, j :: 0 <= i < j < |ls| ==>
      var all := LinesOf(d, style, CanonAll(fs, entries), Canon(fs, root));
      ls[i] in all && ls[j] in all && FirstIndex(all, ls[i]) < FirstIndex(all, ls[j])
  {
    var all := LinesOf(d, style, CanonAll(fs, entries), Canon(fs, root));
    DedupOrder(all);
    Dedup(all)
  }

  /** `build_filelist_text`: the lines of `FileListLines`, each ended by a newline; no entries give
      the empty text. */
  function BuildFileListText(fs: FileSystem, d: Dialect, style: LineStyle, entries: seq<Path>, root: Path): (text: string)
    ensures text == [] <==> entries == []
    ensures text == [] || text[|text| - 1] == '\n'
    ensures text == Terminated(FileListLines(fs, d, style, entries, root))
  {
    var lines := FileListLines(fs, d, style, entries, root);
    assert entries != [] ==> LineIn(style, d, Canon(fs, entries[0]), Canon(fs, root)) in lines;
    if lines == [] then "" else
      JoinIsTerminated(lines);
      JoinWith(lines, "\n") + "\n"
  }

  /** The reader splits the built text back into exactly the file-list lines, when no line holds a
      line boundary. */
  lemma FileListTextReadsBack(fs: FileSystem, d: Dialect, style: LineStyle, entries: seq<Path>, root: Path)
    requires forall i :: 0 <= i < |entries| ==> NoLineBreak(LineIn(style, d, Canon(fs, entries[i]), Canon(fs, root)))
    ensures ManifestLines(d, BuildFileListText(fs, d, style, entries, root)) == FileListLines(fs, d, style, entries, root)
  {
    var ls := FileListLines(fs, d, style, entries, root);
    forall k | 0 <= k < |ls| ensures NoLineBreak(ls[k]) {
      assert ls[k] in ls;
    }
    WrittenLinesReadBack(d, ls);
  }

  /** `write_filelist`: the text is written to `filename` under the root (Rust joins it onto the root
      as given, Python onto the resolved root); the write fails as `WriteText` does. */
  function WriteFileList(fs: FileSystem, d: Dialect, style: LineStyle, root: Path, entries: seq<Path>, filename: string)
    : (r: Result<(FileSystem, Path)>)
    ensures r.Ok? ==> var (fs', out) := r.value;
      && IsFile(fs', out) && out in fs'.texts && fs'.texts[out] == BuildFileListText(fs, d, style, entries, root)
      && fs'.canonical == fs.canonical
      && forall q :: Exists(fs, q) ==> Exists(fs', q)
    ensures var out := Join(if d == RustIndexer then root else Canon(fs, root), Parse(filename));
      r.Err? <==> IsDir(fs, out) || out.parts == [] || !IsDir(fs, Parent(out)) || out in fs.refused
  {
    var out := Join(if d == RustIndexer then root else Canon(fs, root), Parse(filename));
    match WriteText(fs, out, BuildFileListText(fs, d, style, entries, root))
    case Ok(fs') => Ok((fs', out))
    case Err(e) => Err(e)
  }

  // ---------------------------------------------------------------------------------------
  // Writing then reading a manifest
  // ---------------------------------------------------------------------------------------

  /** A line the reader takes back verbatim: non-empty, not a comment, without whitespace at either
      end (the reader trims it), and free of line boundaries. */
  predicate SafeLine(l: string) {
    l != [] && l[0] != '#' && !IsSpace(l[0]) && !IsSpace(l[|l| - 1]) && NoLineBreak(l)
  }

  /** An entry whose canonical form is a fixed point of canonicalisation, exists, and whose line is
      safe. */
  predicate RoundTrips(fs: FileSystem, d: Dialect, style: LineStyle, root: Path, c: Path) {
    c.absolute && WellFormed(c) && Canon(fs, c) == c && Exists(fs, c) && SafeLine(LineIn(style, d, c, root))
  }

  /** Reading a safe line back names the entry it was written for. */
  lemma LineTargetOfLineFor(fs: FileSystem, d: Dialect, style: LineStyle, root: Path, c: Path)
    requires Canon(fs, root) == root
    requires RoundTrips(fs, d, style, root, c)
    ensures LineTarget(fs, root, LineIn(style, d, c, root)) == Some(c)
  {
    var l := LineIn(style, d, c, root);
    TrimOfWord(l);
    if l == ToString(c) {
      ParseToString(c);
    } else {
      match StripPrefix(c, root)
      case Some(rel) =>
        assert WellFormed(rel) by {
          forall i | 0 <= i < |rel.parts| ensures ValidPart(rel.parts[i]) {
            assert rel.parts[i] == c.parts[|root.parts| + i];
          }
        }
        if d == PythonIndexer && rel.parts == [] {
          assert Parse(".") == rel by {
            assert SegLen(".") == 1;
          }
        } else {
          ParseToString(rel);
        }
        StripThenJoin(c, root);
      case None =>
        ParseToString(c);
    }
  }

  /** Reading the entry's line back names the entry, and the entry exists. */
  predicate NamesAgain(fs: FileSystem, d: Dialect, style: LineStyle, root: Path, c: Path) {
    LineTarget(fs, root, LineIn(style, d, c, root)) == Some(c) && Exists(fs, c)
  }

  /** When every line names its entry again, an entry's line was already written exactly when the
      entry itself was already seen. */
  lemma LineSeenIffEntrySeen(fs: FileSystem, d: Dialect, style: LineStyle, root: Path, cs: seq<Path>, x: Path)
    requires forall c :: c in cs ==> NamesAgain(fs, d, style, root, c)
    requires NamesAgain(fs, d, style, root, x)
    ensures LineIn(style, d, x, root) in LinesOf(d, style, cs, root) <==> x in cs
  {
    var ls := LinesOf(d, style, cs, root);
    if LineIn(style, d, x, root) in ls {
      var j :| 0 <= j < |ls| && ls[j] == LineIn(style, d, x, root);
      assert NamesAgain(fs, d, style, root, cs[j]);
    }
    if x in cs {
      var j :| 0 <= j < |cs| && cs[j] == x;
      assert ls[j] == LineIn(style, d, x, root);
    }
  }

  /** Reading back one more, new, line adds its entry at the end. */
  lemma ReadBackSnoc(fs: FileSystem, root: Path, lines: seq<string>, l: string, x: Path)
    requires LineTarget(fs, root, l) == Some(x) && Exists(fs, x)
    ensures Keep(fs, Targets(fs, root, lines + [l]), true, true) == Keep(fs, Targets(fs, root, lines), true, true) + [x]
  {
    TargetsSnoc(fs, root, lines, l);
    KeepSnoc(fs, Targets(fs, root, lines), Some(x), true, true);
  }

  /** Writing the lines of `cs` and reading them back gives `cs` without repetitions, provided every
      line names its entry again. */
  /** One more written line whose entry is new exactly when the line is new keeps the read-back
      equal to the de-duplicated entries. */
  lemma RoundTripStep(fs: FileSystem, root: Path, ls: seq<string>, l: string, init: seq<Path>, x: Path)
    requires Keep(fs, Targets(fs, root, Dedup(ls)), true, true) == Dedup(init)
    requires LineTarget(fs, root, l) == Some(x) && Exists(fs, x)
    requires l in ls <==> x in init
    ensures Keep(fs, Targets(fs, root, Dedup(ls + [l])), true, true) == Dedup(init + [x])
  {
    DedupSnoc(ls, l);
    DedupSnoc(init, x);
    if l !in ls {
      ReadBackSnoc(fs, root, Dedup(ls), l, x);
    }
  }

  /** Writing the lines of `cs` and reading them back gives `cs` without repetitions, provided every
      line names its entry again. */
  lemma {:induction false} RoundTripCore(fs: FileSystem, d: Dialect, style: LineStyle, root: Path, cs: seq<Path>)
    requires forall c :: c in cs ==> NamesAgain(fs, d, style, root, c)
    ensures Keep(fs, Targets(fs, root, Dedup(LinesOf(d, style, cs, root))), true, true) == Dedup(cs)
    decreases |cs|
  {
    if cs != [] {
      var init := cs[..|cs| - 1];
      var x := cs[|cs| - 1];
      var ls := LinesOf(d, style, init, root);
      var l := LineIn(style, d, x, root);
      assert cs == init + [x];
      assert LinesOf(d, style, cs, root) == ls + [l];
      assert Keep(fs, Targets(fs, root, Dedup(ls)), true, true) == Dedup(init) by {
        forall c | c in init ensures NamesAgain(fs, d, style, root, c) {
          assert c in cs;
        }
        RoundTripCore(fs, d, style, root, init);
      }
      assert x in cs;
      assert l in ls <==> x in init by {
        forall c | c in init ensures NamesAgain(fs, d, style, root, c) {
          assert c in cs;
        }
        LineSeenIffEntrySeen(fs, d, style, root, init, x);
      }
      RoundTripStep(fs, root, ls, l, init, x);
    }
  }

  /** The manifest reader splits the written text back into exactly the lines written. */
  lemma WrittenLinesReadBack(d: Dialect, lines: seq<string>)
    requires forall i :: 0 <= i < |lines| ==> NoLineBreak(lines[i])
    ensures ManifestLines(d, if lines == [] then "" else JoinWith(lines, "\n") + "\n") == lines
  {
    if lines != [] {
      JoinIsTerminated(lines);
    }
    match d
    case RustIndexer =>
      assert forall i :: 0 <= i < |lines| ==> IsLine(lines[i]) by {
        assert IsLineBreak('\n') && IsLineBreak('\r');
      }
      LinesOfTerminated(lines);
    case PythonIndexer =>
      SplitLinesOfTerminated(lines);
  }

  /** Parsing a readable manifest, unfolded. */
  lemma ParseFileListOfText(fs: FileSystem, d: Dialect, manifest: Path, root: Path, includeFiles: bool, includeDirs: bool)
    requires manifest in fs.texts
    ensures ParseFileList(fs, d, manifest, root, includeFiles, includeDirs)
      == Ok(Dedup(Keep(fs, Targets(fs, root, ManifestLines(d, fs.texts[manifest])), includeFiles, includeDirs)))
  {
  }

  /** After a write that leaves canonicalisation alone and removes nothing, every safe entry's line
      still names it, and it still exists. */
  lemma LinesStillNameEntries(fs: FileSystem, fs': FileSystem, d: Dialect, style: LineStyle, root: Path, cs: seq<Path>)
    requires Canon(fs, root) == root
    requires fs'.canonical == fs.canonical
    requires forall q :: Exists(fs, q) ==> Exists(fs', q)
    requires forall i :: 0 <= i < |cs| ==> RoundTrips(fs, d, style, root, cs[i])
    ensures forall c :: c in cs ==> NamesAgain(fs', d, style, root, c)
  {
    forall c | c in cs ensures NamesAgain(fs', d, style, root, c) {
      var i :| 0 <= i < |cs| && cs[i] == c;
      LineTargetOfLineFor(fs, d, style, root, cs[i]);
    }
  }

  /** The lines written for safe entries are safe. */
  lemma WrittenLinesSafe(fs: FileSystem, d: Dialect, style: LineStyle, root: Path, cs: seq<Path>)
    requires forall i :: 0 <= i < |cs| ==> RoundTrips(fs, d, style, root, cs[i])
    ensures forall i :: 0 <= i < |Dedup(LinesOf(d, style, cs, root))| ==>
      SafeLine(Dedup(LinesOf(d, style, cs, root))[i])
  {
    var lines := Dedup(LinesOf(d, style, cs, root));
    forall i | 0 <= i < |lines| ensures SafeLine(lines[i]) {
      assert lines[i] in LinesOf(d, style, cs, root);
    }
  }

  /** Round trip: writing a manifest for `entries` under a canonical root and reading it back from
      the same root, with both kinds of entry kept, gives the canonical entries without
      repetitions, in first-seen order, provided every entry's line is one the reader takes back. */
  lemma WriteThenParse(fs: FileSystem, d: Dialect, style: LineStyle, root: Path, entries: seq<Path>, filename: string)
    requires Canon(fs, root) == root
    requires forall i :: 0 <= i < |entries| ==> RoundTrips(fs, d, style, root, Canon(fs, entries[i]))
    requires WriteFileList(fs, d, style, root, entries, filename).Ok?
    ensures var (fs', out) := WriteFileList(fs, d, style, root, entries, filename).value;
      ParseFileList(fs', d, out, root, true, true) == Ok(Dedup(CanonAll(fs, entries)))
  {
    var (fs', out) := WriteFileList(fs, d, style, root, entries, filename).value;
    var cs := CanonAll(fs, entries);
    var lines := Dedup(LinesOf(d, style, cs, root));
    assert ManifestLines(d, fs'.texts[out]) == lines by {
      assert forall i :: 0 <= i < |entries| ==> NoLineBreak(LineIn(style, d, Canon(fs, entries[i]), root));
      WrittenManifest(fs, d, style, root, entries, filename);
    }
    assert Keep(fs', Targets(fs', root, lines), true, true) == Dedup(cs) by {
      LinesStillNameEntries(fs, fs', d, style, root, cs);
      RoundTripCore(fs', d, style, root, cs);
    }
    ParseFileListOfText(fs', d, out, root, true, true);
    DedupOfNoDups(Dedup(cs));
  }

  // ---------------------------------------------------------------------------------------
  // Entries the as-written manifest loses, and the repair
  // ---------------------------------------------------------------------------------------

  /** A manifest written under a canonical root reads back as its file-list lines. */
  lemma WrittenManifest(fs: FileSystem, d: Dialect, style: LineStyle, root: Path, entries: seq<Path>, filename: string)
    requires Canon(fs, root) == root
    requires forall i :: 0 <= i < |entries| ==> NoLineBreak(LineIn(style, d, Canon(fs, entries[i]), root))
    requires WriteFileList(fs, d, style, root, entries, filename).Ok?
    ensures var (fs', out) := WriteFileList(fs, d, style, root, entries, filename).value;
      out in fs'.texts && ManifestLines(d, fs'.texts[out]) == FileListLines(fs, d, style, entries, root)
  {
    FileListTextReadsBack(fs, d, style, entries, root);
  }

  /** A manifest written for a single entry holds that entry's line and nothing else. */
  lemma SingleEntryManifest(fs: FileSystem, d: Dialect, style: LineStyle, root: Path, e: Path, filename: string)
    requires Canon(fs, root) == root && Canon(fs, e) == e
    requires NoLineBreak(LineIn(style, d, e, root))
    requires WriteFileList(fs, d, style, root, [e], filename).Ok?
    ensures var (fs', out) := WriteFileList(fs, d, style, root, [e], filename).value;
      out in fs'.texts && ManifestLines(d, fs'.texts[out]) == [LineIn(style, d, e, root)]
  {
    var l := LineIn(style, d, e, root);
    assert FileListLines(fs, d, style, [e], root) == [l] by {
      assert CanonAll(fs, [e]) == [e];
      assert LinesOf(d, style, [e], root) == [l];
      assert Dedup([l]) == [l];
    }
    WrittenManifest(fs, d, style, root, [e], filename);
  }

  /** A manifest written for a single entry whose line the reader skips reads back empty. */
  lemma SkippedLineReadsBackEmpty(fs: FileSystem, d: Dialect, style: LineStyle, root: Path, e: Path, filename: string)
    requires Canon(fs, root) == root && Canon(fs, e) == e
    requires NoLineBreak(LineIn(style, d, e, root))
    requires LineTarget(fs, root, LineIn(style, d, e, root)) == None
    requires WriteFileList(fs, d, style, root, [e], filename).Ok?
    ensures var (fs', out) := WriteFileList(fs, d, style, root, [e], filename).value;
      ParseFileList(fs', d, out, root, true, true) == Ok([])
  {
    var (fs', out) := WriteFileList(fs, d, style, root, [e], filename).value;
    var l := LineIn(style, d, e, root);
    SingleEntryManifest(fs, d, style, root, e, filename);
    assert LineTarget(fs', root, l) == None;
    OnlySkippedLineReadBack(fs', d, out, root, l);
  }

  /** A manifest holding the single line `l` that the reader skips reads back empty. */
  lemma OnlySkippedLineReadBack(fs: FileSystem, d: Dialect, out: Path, root: Path, l: string)
    requires out in fs.texts && ManifestLines(d, fs.texts[out]) == [l]
    requires LineTarget(fs, root, l) == None
    ensures ParseFileList(fs, d, out, root, true, true) == Ok([])
  {
    assert Targets(fs, root, [l]) == [None];
    assert Keep(fs, [None], true, true) == [];
    ParseFileListOfText(fs, d, out, root, true, true);
  }

  /** An existing entry under the root whose relative line starts with '#' is written as a comment
      and read back as nothing (for example the file /r/#notes under the root /r). */
  lemma CommentLikeEntryIsLost(fs: FileSystem, d: Dialect, root: Path, e: Path, filename: string)
    requires Canon(fs, root) == root && Canon(fs, e) == e && Exists(fs, e)
    requires LineFor(d, e, root) != [] && LineFor(d, e, root)[0] == '#'
    requires NoLineBreak(LineFor(d, e, root))
    requires WriteFileList(fs, d, AsWritten, root, [e], filename).Ok?
    ensures Dedup(CanonAll(fs, [e])) == [e]
    ensures var (fs', out) := WriteFileList(fs, d, AsWritten, root, [e], filename).value;
      ParseFileList(fs', d, out, root, true, true) == Ok([])
  {
    assert CanonAll(fs, [e]) == [e];
    assert LineTarget(fs, root, LineFor(d, e, root)) == None by {
      TrimKeepsFirst(LineFor(d, e, root));
    }
    SkippedLineReadsBackEmpty(fs, d, AsWritten, root, e, filename);
  }

  /** Rust prints the root itself as the empty line, which the reader skips: a manifest written for
      the root alone reads back empty. */
  lemma RootEntryIsLostRust(fs: FileSystem, root: Path, filename: string)
    requires Canon(fs, root) == root && Exists(fs, root)
    requires WriteFileList(fs, RustIndexer, AsWritten, root, [root], filename).Ok?
    ensures Dedup(CanonAll(fs, [root])) == [root]
    ensures var (fs', out) := WriteFileList(fs, RustIndexer, AsWritten, root, [root], filename).value;
      ParseFileList(fs', RustIndexer, out, root, true, true) == Ok([])
  {
    assert Dedup(CanonAll(fs, [root])) == [root] by {
      assert CanonAll(fs, [root]) == [root];
    }
    assert LineIn(AsWritten, RustIndexer, root, root) == "" by {
      LineForRoot(RustIndexer, root);
    }
    SkippedLineReadsBackEmpty(fs, RustIndexer, AsWritten, root, root, filename);
  }

  /** The text the root `/r` and its child `/r/x` have in common in the two examples below. */
  lemma ReadsAsChildX(fs: FileSystem, l: string)
    requires Canon(fs, Path(true, ["r", "x"])) == Path(true, ["r", "x"])
    requires Trim(l) == "x"
    ensures LineTarget(fs, Path(true, ["r"]), l) == Some(Path(true, ["r", "x"]))
  {
    var t := Trim(l);
    assert t[0] == 'x';
    assert ToString(Path(false, ["x"])) == "x";
    ParseToString(Path(false, ["x"]));
    assert Parse(t) == Path(false, ["x"]);
    assert Join(Path(true, ["r"]), Parse(t)) == Path(true, ["r", "x"]) by {
      assert ["r"] + ["x"] == ["r", "x"];
    }
  }

  /** The line of a child of `/r` under the root `/r` is the child's name. */
  lemma LineOfChild(d: Dialect, n: string)
    requires n != []
    ensures LineFor(d, Path(true, ["r", n]), Path(true, ["r"])) == n
  {
    var e := Path(true, ["r", n]);
    assert IsUnder(e, Path(true, ["r"])) by {
      assert e.parts[..1] == ["r"];
    }
    assert StripPrefix(e, Path(true, ["r"])) == Some(Path(false, [n])) by {
      assert e.parts[1..] == [n];
    }
    assert ToString(Path(false, [n])) == n;
  }

  /** Both writers print the child `/r/x ` of `/r` as its name. */
  lemma LineOfChildXSpace(style: LineStyle, d: Dialect)
    ensures LineIn(style, d, Path(true, ["r", "x "]), Path(true, ["r"])) == "x "
  {
    LineOfChild(d, "x ");
    assert "x "[0] == 'x' && !IsSpace('x');
  }

  lemma SpaceXTrims()
    ensures Trim(" x") == "x" && Trim("x ") == "x"
  {
    TrimDropsOuterSpace("x", ' ');
    assert [' '] + "x" == " x";
    assert "x" + [' '] == "x ";
  }

  lemma SpaceXUnbroken()
    ensures NoLineBreak(" x") && NoLineBreak("x ")
  {
    assert !IsLineBreak(' ') && !IsLineBreak('x');
    forall i | 0 <= i < 2 ensures !IsLineBreak(" x"[i]) && !IsLineBreak("x "[i]) {
      assert " x"[i] == ' ' || " x"[i] == 'x';
      assert "x "[i] == ' ' || "x "[i] == 'x';
    }
  }

  /** A manifest holding the single line `l` that reads as `/r/x` does not name `e`. */
  lemma OnlyChildXReadBack(fs: FileSystem, d: Dialect, out: Path, l: string, e: Path)
    requires out in fs.texts && ManifestLines(d, fs.texts[out]) == [l]
    requires LineTarget(fs, Path(true, ["r"]), l) == Some(Path(true, ["r", "x"]))
    requires e != Path(true, ["r", "x"])
    ensures ParseFileList(fs, d, out, Path(true, ["r"]), true, true).Ok?
    ensures e !in ParseFileList(fs, d, out, Path(true, ["r"]), true, true).value
  {
    var lines := ManifestLines(d, fs.texts[out]);
    assert forall i :: 0 <= i < |lines| ==> LineTarget(fs, Path(true, ["r"]), lines[i]) != Some(e);
  }

  /** An existing entry under the root whose name starts with whitespace is written as a relative
      line that the reader trims, so the line names a different path: the file `/r/ x` under the
      root `/r` is written as " x" and read back as `/r/x`, never as itself. */
  lemma LeadingSpaceEntryIsLost(fs: FileSystem, d: Dialect, filename: string)
    requires var root, e := Path(true, ["r"]), Path(true, ["r", " x"]);
      Canon(fs, root) == root && Canon(fs, e) == e && Exists(fs, e)
    requires Canon(fs, Path(true, ["r", "x"])) == Path(true, ["r", "x"])
    requires WriteFileList(fs, d, AsWritten, Path(true, ["r"]), [Path(true, ["r", " x"])], filename).Ok?
    ensures Dedup(CanonAll(fs, [Path(true, ["r", " x"])])) == [Path(true, ["r", " x"])]
    ensures var (fs', out) := WriteFileList(fs, d, AsWritten, Path(true, ["r"]), [Path(true, ["r", " x"])], filename).value;
      && ParseFileList(fs', d, out, Path(true, ["r"]), true, true).Ok?
      && Path(true, ["r", " x"]) !in ParseFileList(fs', d, out, Path(true, ["r"]), true, true).value
  {
    var root, e := Path(true, ["r"]), Path(true, ["r", " x"]);
    assert CanonAll(fs, [e]) == [e];
    var (fs', out) := WriteFileList(fs, d, AsWritten, root, [e], filename).value;
    var l := LineIn(AsWritten, d, e, root);
    assert l == " x" by {
      LineOfChild(d, " x");
    }
    assert NoLineBreak(l) by {
      SpaceXUnbroken();
    }
    SingleEntryManifest(fs, d, AsWritten, root, e, filename);
    assert LineTarget(fs', root, l) == Some(Path(true, ["r", "x"])) by {
      SpaceXTrims();
      ReadsAsChildX(fs', l);
    }
    OnlyChildXReadBack(fs', d, out, l, e);
  }

  /** An existing entry whose name ends in whitespace is lost by both writers, because the reader
      trims every line: the file `/r/x ` under the root `/r` is written as "x " and read back as
      `/r/x`, never as itself. */
  lemma TrailingSpaceEntryIsLost(fs: FileSystem, d: Dialect, style: LineStyle, filename: string)
    requires var root, e := Path(true, ["r"]), Path(true, ["r", "x "]);
      Canon(fs, root) == root && Canon(fs, e) == e && Exists(fs, e)
    requires Canon(fs, Path(true, ["r", "x"])) == Path(true, ["r", "x"])
    requires WriteFileList(fs, d, style, Path(true, ["r"]), [Path(true, ["r", "x "])], filename).Ok?
    ensures Dedup(CanonAll(fs, [Path(true, ["r", "x "])])) == [Path(true, ["r", "x "])]
    ensures var (fs', out) := WriteFileList(fs, d, style, Path(true, ["r"]), [Path(true, ["r", "x "])], filename).value;
      && ParseFileList(fs', d, out, Path(true, ["r"]), true, true).Ok?
      && Path(true, ["r", "x "]) !in ParseFileList(fs', d, out, Path(true, ["r"]), true, true).value
  {
    var root, e := Path(true, ["r"]), Path(true, ["r", "x "]);
    assert CanonAll(fs, [e]) == [e];
    var (fs', out) := WriteFileList(fs, d, style, root, [e], filename).value;
    var l := LineIn(style, d, e, root);
    assert l == "x " by {
      LineOfChildXSpace(style, d);
    }
    assert NoLineBreak(l) by {
      SpaceXUnbroken();
    }
    SingleEntryManifest(fs, d, style, root, e, filename);
    assert LineTarget(fs', root, l) == Some(Path(true, ["r", "x"])) by {
      SpaceXTrims();
      ReadsAsChildX(fs', l);
    }
    OnlyChildXReadBack(fs', d, out, l, e);
  }

  /** A path whose components hold no line boundary and whose last component does not end in
      whitespace. */
  predicate Plain(p: Path) {
    && (forall i :: 0 <= i < |p.parts| ==> NoLineBreak(p.parts[i]))
    && (p.parts != [] ==> p.parts[|p.parts| - 1] != [] && !IsSpace(Last(p.parts[|p.parts| - 1])))
  }

  function Last(s: string): char
    requires s != []
  {
    s[|s| - 1]
  }

  /** Joining parts free of line boundaries with '/' gives a text free of them, ending where the last
      part ends. */
  lemma {:induction false} JoinPlain(parts: seq<string>)
    requires forall i :: 0 <= i < |parts| ==> NoLineBreak(parts[i])
    requires parts != [] ==> parts[|parts| - 1] != []
    ensures NoLineBreak(JoinWith(parts, "/"))
    ensures parts != [] ==> JoinWith(parts, "/") != [] && Last(JoinWith(parts, "/")) == Last(parts[|parts| - 1])
    decreases |parts|
  {
    if |parts| > 1 {
      JoinPlain(parts[1..]);
      var rest := JoinWith(parts[1..], "/");
      var j := parts[0] + "/" + rest;
      assert JoinWith(parts, "/") == j;
      assert Last(j) == Last(rest);
      assert !IsLineBreak('/');
      forall k | 0 <= k < |j| ensures !IsLineBreak(j[k]) {
        if k > |parts[0]| {
          assert j[k] == rest[k - |parts[0]| - 1];
        }
      }
    }
  }

  /** A plain path prints without line boundaries and, unless it prints empty, ends in a
      non-space. */
  lemma PlainToString(p: Path)
    requires Plain(p)
    ensures NoLineBreak(ToString(p))
    ensures ToString(p) != [] ==> !IsSpace(Last(ToString(p)))
  {
    JoinPlain(p.parts);
    var j := JoinWith(p.parts, "/");
    assert !IsLineBreak('/');
    if p.absolute {
      assert ToString(p) == "/" + j;
      forall k | 0 <= k < |ToString(p)| ensures !IsLineBreak(ToString(p)[k]) {
        if k > 0 {
          assert ToString(p)[k] == j[k - 1];
        }
      }
    } else {
      assert ToString(p) == j;
    }
  }

  /** The repaired line of an absolute plain entry is always one the reader takes back. */
  lemma CorrectedLineIsSafe(d: Dialect, root: Path, c: Path)
    requires c.absolute && Plain(c)
    ensures SafeLine(LineForCorrected(d, c, root))
  {
    var l := LineFor(d, c, root);
    if l == [] || l[0] == '#' || IsSpace(l[0]) {
      PlainToString(c);
    } else {
      match StripPrefix(c, root)
      case Some(rel) =>
        if !(d == PythonIndexer && rel.parts == []) {
          assert Plain(rel) by {
            assert forall i :: 0 <= i < |rel.parts| ==> rel.parts[i] == c.parts[|root.parts| + i];
          }
          PlainToString(rel);
        } else {
          assert l == ".";
        }
      case None =>
        PlainToString(c);
    }
  }

  /** Round trip of the repaired writer: every existing, canonical, absolute entry is read back,
      the root and entries named with a leading '#' or whitespace included, provided no component
      holds a line boundary and the name does not end in whitespace. */
  lemma WriteThenParseCorrected(fs: FileSystem, d: Dialect, root: Path, entries: seq<Path>, filename: string)
    requires Canon(fs, root) == root
    requires forall i :: 0 <= i < |entries| ==>
      var c := Canon(fs, entries[i]);
      c.absolute && WellFormed(c) && Canon(fs, c) == c && Exists(fs, c) && Plain(c)
    requires WriteFileList(fs, d, AbsoluteWhenSkipped, root, entries, filename).Ok?
    ensures var (fs', out) := WriteFileList(fs, d, AbsoluteWhenSkipped, root, entries, filename).value;
      ParseFileList(fs', d, out, root, true, true) == Ok(Dedup(CanonAll(fs, entries)))
  {
    forall i | 0 <= i < |entries| ensures RoundTrips(fs, d, AbsoluteWhenSkipped, root, Canon(fs, entries[i])) {
      CorrectedLineIsSafe(d, root, Canon(fs, entries[i]));
    }
    WriteThenParse(fs, d, AbsoluteWhenSkipped, root, entries, filename);
  }
}
