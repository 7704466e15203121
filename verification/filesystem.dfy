/** The part of the filesystem the indexer observes, as plain data: what each path is when links
    are followed, which files can be read as text, what reading a directory yields, and where
    canonicalisation leads. Nothing here performs I/O; every observation the indexer makes is a
    lookup in one of these tables. */
module FileSystem {
  import opened Wrappers
  import opened Paths

  /** What a path is once symbolic links are followed (`is_file` / `is_dir`). */
  datatype Kind = File | Dir

  /** One entry of a directory listing.
      `path` is the entry's path under the listed directory, `resolved` is where following its
      symbolic links leads (`Path.resolve()`), `link` says the entry itself is a symbolic link,
      `target` is its kind with links followed (None for a dangling link), and `listed` says that
      reading it as a directory succeeds, in which case `children` are its entries in listing order.
      A directory whose reading fails mid-way is modelled as not listed. */
  datatype Node = Node(path: Path, resolved: Path, link: bool, target: Option<Kind>, listed: bool, children: seq<Node>)

  /** Reading a directory named by path: its entries, or why it cannot be read. */
  datatype Listing = Listed(entries: seq<Node>) | Denied | NotADirectory | NotFound

  /** `kinds` answers `exists`/`is_file`/`is_dir` (links followed); `texts` holds the files that
      read as UTF-8 text; `listings` answers `read_dir`/`iterdir`; `canonical` holds the paths whose
      canonicalisation succeeds and what it yields; `refused` holds the paths where the system
      refuses to create or replace a file (no permission, a read-only or a full disk). */
  datatype FileSystem = FileSystem(
    kinds: map<Path, Kind>,
    texts: map<Path, string>,
    listings: map<Path, Listing>,
    canonical: map<Path, Path>,
    refused: set<Path>)

  predicate Exists(fs: FileSystem, p: Path) {
    p in fs.kinds
  }

  predicate IsFile(fs: FileSystem, p: Path) {
    p in fs.kinds && fs.kinds[p] == File
  }

  predicate IsDir(fs: FileSystem, p: Path) {
    p in fs.kinds && fs.kinds[p] == Dir
  }

  /** `canonicalize().unwrap_or(p)` and Python's non-strict `resolve()`: the canonical path when
      canonicalisation succeeds, the path itself otherwise. */
  function Canon(fs: FileSystem, p: Path): Path {
    if p in fs.canonical then fs.canonical[p] else p
  }

  /** `read_dir` / `iterdir` on a path; a path the table does not mention does not exist. */
  function ListDir(fs: FileSystem, p: Path): Listing {
    if p in fs.listings then fs.listings[p] else NotFound
  }

  /** The directory a path lies in: the path without its last component. */
  function Parent(p: Path): Path
    requires p.parts != []
  {
    Path(p.absolute, p.parts[..|p.parts| - 1])
  }

  /** `fs::write` / `write_text`: creates the file or replaces its text. It fails for a directory,
      for a path whose parent is not an existing directory, and where the system refuses the write. */
  function WriteText(fs: FileSystem, p: Path, text: string): (r: Result<FileSystem>)
    ensures r.Ok? <==> !IsDir(fs, p) && p.parts != [] && IsDir(fs, Parent(p)) && p !in fs.refused
    ensures r.Ok? ==> IsFile(r.value, p) && p in r.value.texts && r.value.texts[p] == text
    ensures r.Ok? ==> forall q :: q != p ==>
      && (Exists(r.value, q) <==> Exists(fs, q))
      && (q in r.value.texts <==> q in fs.texts)
      && (q in fs.texts ==> r.value.texts[q] == fs.texts[q])
    ensures r.Ok? ==> r.value.canonical == fs.canonical && r.value.listings == fs.listings
  {
    if IsDir(fs, p) || p.parts == [] || !IsDir(fs, Parent(p)) || p in fs.refused then Err("failed to write")
    else Ok(fs.(kinds := fs.kinds[p := File], texts := fs.texts[p := text]))
  }

  /** A tree without symbolic links: every entry exists and resolves to its own path. */
  predicate LinkFree(ns: seq<Node>)
    decreases ns
  {
    forall i :: 0 <= i < |ns| ==>
      !ns[i].link && ns[i].target.Some? && ns[i].resolved == ns[i].path && LinkFree(ns[i].children)
  }
}
