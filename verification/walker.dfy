/** Directory walking. The Rust indexer walks depth-first in pre-order without following links and
    files every entry that is not a real directory as a file (rust/src/indexer.rs, `walk`); the
    Python indexers pop directories off an explicit stack, classify entries with links followed,
    and record resolved paths (`_walk` of the prototype, `walk_entries` of the legacy package). */
module Walker {
  import opened Wrappers
  import opened Paths
  import opened FileSystem

  // ---------------------------------------------------------------------------------------
  // The Rust walk
  // ---------------------------------------------------------------------------------------

  /** `entry.file_type().is_dir()` with links not followed: a directory that is not a link. */
  predicate IsRealDir(n: Node) {
    !n.link && n.target == Some(Dir)
  }

  /** The non-directory entries of a pre-order walk, in the order the walk yields them. A real
      directory is descended into when it can be read; a failed read is skipped. */
  function RustFiles(ns: seq<Node>): seq<Path>
    decreases ns
  {
    if ns == [] then []
    else
      var n := ns[0];
      (if IsRealDir(n) then [] else [n.path])
      + (if IsRealDir(n) && n.listed then RustFiles(n.children) else [])
      + RustFiles(ns[1..])
  }

  /** The real directories of the same walk, in the order it yields them. */
  function RustDirs(ns: seq<Node>): seq<Path>
    decreases ns
  {
    if ns == [] then []
    else
      var n := ns[0];
      (if IsRealDir(n) then [n.path] else [])
      + (if IsRealDir(n) && n.listed then RustDirs(n.children) else [])
      + RustDirs(ns[1..])
  }

  /** `n` is met by the Rust walk of `ns`: it is one of the entries, or lies below a readable real
      directory among them. */
  ghost predicate Reaches(ns: seq<Node>, n: Node)
    decreases ns
  {
    exists i :: 0 <= i < |ns| && (ns[i] == n || (IsRealDir(ns[i]) && ns[i].listed && Reaches(ns[i].children, n)))
  }

  lemma ReachesCons(ns: seq<Node>, n: Node)
    requires ns != []
    ensures Reaches(ns, n) <==>
      ns[0] == n || (IsRealDir(ns[0]) && ns[0].listed && Reaches(ns[0].children, n)) || Reaches(ns[1..], n)
  {
    if Reaches(ns[1..], n) {
      var i :| 0 <= i < |ns[1..]| && (ns[1..][i] == n || (IsRealDir(ns[1..][i]) && ns[1..][i].listed && Reaches(ns[1..][i].children, n)));
      assert ns[i + 1] == ns[1..][i];
    }
    if Reaches(ns, n) {
      var i :| 0 <= i < |ns| && (ns[i] == n || (IsRealDir(ns[i]) && ns[i].listed && Reaches(ns[i].children, n)));
      if i > 0 {
        assert ns[1..][i - 1] == ns[i];
      }
    }
  }

  /** The walk lists exactly the entries it meets that are not real directories: symbolic links,
      whatever they point to, are listed as files and never entered. */
  lemma {:induction false} RustFilesAreReachedFiles(ns: seq<Node>, p: Path)
    ensures p in RustFiles(ns) <==> exists n :: Reaches(ns, n) && !IsRealDir(n) && n.path == p
    decreases ns
  {
    if ns != [] {
      var n := ns[0];
      var deeper := IsRealDir(n) && n.listed;
      RustFilesAreReachedFiles(ns[1..], p);
      if deeper {
        RustFilesAreReachedFiles(n.children, p);
      }
      forall m | Reaches(ns, m) && !IsRealDir(m) && m.path == p
        ensures p in RustFiles(ns)
      {
        ReachesCons(ns, m);
      }
      if p in RustFiles(ns) {
        if !IsRealDir(n) && n.path == p {
          ReachesCons(ns, n);
        } else if deeper && p in RustFiles(n.children) {
          var m :| Reaches(n.children, m) && !IsRealDir(m) && m.path == p;
          ReachesCons(ns, m);
        } else {
          var m :| Reaches(ns[1..], m) && !IsRealDir(m) && m.path == p;
          ReachesCons(ns, m);
        }
      }
    }
  }

  /** Likewise the walk lists exactly the real directories it meets, readable or not. */
  lemma {:induction false} RustDirsAreReachedDirs(ns: seq<Node>, p: Path)
    ensures p in RustDirs(ns) <==> exists n :: Reaches(ns, n) && IsRealDir(n) && n.path == p
    decreases ns
  {
    if ns != [] {
      var n := ns[0];
      var deeper := IsRealDir(n) && n.listed;
      RustDirsAreReachedDirs(ns[1..], p);
      if deeper {
        RustDirsAreReachedDirs(n.children, p);
      }
      forall m | Reaches(ns, m) && IsRealDir(m) && m.path == p
        ensures p in RustDirs(ns)
      {
        ReachesCons(ns, m);
      }
      if p in RustDirs(ns) {
        if IsRealDir(n) && n.path == p {
          ReachesCons(ns, n);
        } else if deeper && p in RustDirs(n.children) {
          var m :| Reaches(n.children, m) && IsRealDir(m) && m.path == p;
          ReachesCons(ns, m);
        } else {
          var m :| Reaches(ns[1..], m) && IsRealDir(m) && m.path == p;
          ReachesCons(ns, m);
        }
      }
    }
  }

  /** The result of one walk: files and directories, each in walk order. */
  datatype Walked = Walked(files: seq<Path>, dirs: seq<Path>)

  /** `walk`: a walk below `root` (the root itself is not listed); a root that cannot be read
      yields nothing. */
  function Walk(fs: FileSystem, root: Path): (w: Walked)
    ensures !ListDir(fs, root).Listed? ==> w == Walked([], [])
    ensures ListDir(fs, root).Listed? ==> forall p ::
      && (p in w.files <==> exists n :: Reaches(ListDir(fs, root).entries, n) && !IsRealDir(n) && n.path == p)
      && (p in w.dirs <==> exists n :: Reaches(ListDir(fs, root).entries, n) && IsRealDir(n) && n.path == p)
  {
    match ListDir(fs, root)
    case Listed(ns) =>
      forall p
        ensures && (p in RustFiles(ns) <==> exists n :: Reaches(ns, n) && !IsRealDir(n) && n.path == p)
                && (p in RustDirs(ns) <==> exists n :: Reaches(ns, n) && IsRealDir(n) && n.path == p)
      {
        RustFilesAreReachedFiles(ns, p);
        RustDirsAreReachedDirs(ns, p);
      }
      Walked(RustFiles(ns), RustDirs(ns))
    case _ => Walked([], [])
  }

  /** `walk_entries`: the files when asked for, then the directories when asked for. */
  function WalkEntries(fs: FileSystem, root: Path, includeFiles: bool, includeDirs: bool): (r: seq<Path>)
    ensures |r| == (if includeFiles then |Walk(fs, root).files| else 0) + (if includeDirs then |Walk(fs, root).dirs| else 0)
    ensures forall p :: p in r <==> (includeFiles && p in Walk(fs, root).files) || (includeDirs && p in Walk(fs, root).dirs)
    ensures includeFiles ==> r[..|Walk(fs, root).files|] == Walk(fs, root).files
  {
    var w := Walk(fs, root);
    (if includeFiles then w.files else []) + (if includeDirs then w.dirs else [])
  }

  // ---------------------------------------------------------------------------------------
  // The Python walks
  // ---------------------------------------------------------------------------------------

  /** `child.is_dir()` follows links. */
  predicate PyIsDir(n: Node) {
    n.target == Some(Dir)
  }

  /** The Python walks push a directory unless it is a link, and skip it later if reading fails. */
  predicate PyDescends(n: Node) {
    PyIsDir(n) && !n.link && n.listed
  }

  /** The resolved non-directory entries below `ns`, in pre-order; the Python walk produces the
      same multiset in stack order. */
  function PyFiles(ns: seq<Node>): seq<Path>
    decreases ns
  {
    if ns == [] then []
    else
      var n := ns[0];
      (if PyIsDir(n) then [] else [n.resolved])
      + (if PyDescends(n) then PyFiles(n.children) else [])
      + PyFiles(ns[1..])
  }

  function PyDirs(ns: seq<Node>): seq<Path>
    decreases ns
  {
    if ns == [] then []
    else
      var n := ns[0];
      (if PyIsDir(n) then [n.resolved] else [])
      + (if PyDescends(n) then PyDirs(n.children) else [])
      + PyDirs(ns[1..])
  }

  /** Without symbolic links the Python classification coincides with the Rust one. */
  lemma {:induction false} LinkFreeWalksAgree(ns: seq<Node>)
    requires LinkFree(ns)
    ensures PyFiles(ns) == RustFiles(ns)
    ensures PyDirs(ns) == RustDirs(ns)
    decreases ns
  {
    if ns != [] {
      assert LinkFree(ns[1..]) by {
        forall i | 0 <= i < |ns[1..]|
          ensures !ns[1..][i].link && ns[1..][i].target.Some? && ns[1..][i].resolved == ns[1..][i].path
               && LinkFree(ns[1..][i].children)
        {
          assert ns[1..][i] == ns[i + 1];
        }
      }
      assert LinkFree(ns[0].children) by { assert ns[0] == ns[0]; }
      LinkFreeWalksAgree(ns[0].children);
      LinkFreeWalksAgree(ns[1..]);
    }
  }

  /** A symbolic link to a directory is where the two disagree: Rust lists the link as a file,
      Python lists its target as a directory, and neither enters it. */
  lemma LinkToDirClassified(n: Node)
    requires n.link && n.target == Some(Dir)
    ensures RustFiles([n]) == [n.path] && RustDirs([n]) == []
    ensures PyFiles([n]) == [] && PyDirs([n]) == [n.resolved]
  {
    assert [n][1..] == [];
  }

  /** Number of entries in a forest: what is left to visit. */
  function Size(ns: seq<Node>): nat
    decreases ns
  {
    if ns == [] then 0 else 1 + Size(ns[0].children) + Size(ns[1..])
  }

  function StackSize(stack: seq<seq<Node>>): nat {
    if stack == [] then 0 else StackSize(stack[..|stack| - 1]) + 1 + Size(stack[|stack| - 1])
  }

  function StackFiles(stack: seq<seq<Node>>): multiset<Path> {
    if stack == [] then multiset{} else StackFiles(stack[..|stack| - 1]) + multiset(PyFiles(stack[|stack| - 1]))
  }

  function StackDirs(stack: seq<seq<Node>>): multiset<Path> {
    if stack == [] then multiset{} else StackDirs(stack[..|stack| - 1]) + multiset(PyDirs(stack[|stack| - 1]))
  }

  /** The entry at `i` of a listing accounts for itself and what lies below it; the rest of the
      listing accounts for the remainder. */
  lemma VisitSplit(ns: seq<Node>, i: nat)
    requires i < |ns|
    ensures multiset(PyFiles(ns[i..])) == multiset(PyFiles([ns[i]])) + multiset(PyFiles(ns[i + 1..]))
    ensures multiset(PyDirs(ns[i..])) == multiset(PyDirs([ns[i]])) + multiset(PyDirs(ns[i + 1..]))
    ensures Size(ns[i..]) == Size([ns[i]]) + Size(ns[i + 1..])
  {
    assert ns[i..][0] == ns[i] && ns[i..][1..] == ns[i + 1..];
    assert [ns[i]][1..] == [];
  }

  lemma EverythingSplit(ns: seq<Node>, i: nat)
    requires i < |ns|
    ensures Everything(ns[i..]) == Everything([ns[i]]) + Everything(ns[i + 1..])
    ensures Size(ns[i..]) == Size([ns[i]]) + Size(ns[i + 1..])
  {
    VisitSplit(ns, i);
  }

  lemma StackPop(stack: seq<seq<Node>>)
    requires stack != []
    ensures StackSize(stack) == StackSize(stack[..|stack| - 1]) + 1 + Size(stack[|stack| - 1])
    ensures StackFiles(stack) == StackFiles(stack[..|stack| - 1]) + multiset(PyFiles(stack[|stack| - 1]))
    ensures StackDirs(stack) == StackDirs(stack[..|stack| - 1]) + multiset(PyDirs(stack[|stack| - 1]))
  {
  }

  lemma StackPush(stack: seq<seq<Node>>, top: seq<Node>)
    ensures StackSize(stack + [top]) == StackSize(stack) + 1 + Size(top)
    ensures StackFiles(stack + [top]) == StackFiles(stack) + multiset(PyFiles(top))
    ensures StackDirs(stack + [top]) == StackDirs(stack) + multiset(PyDirs(top))
  {
    assert (stack + [top])[..|stack|] == stack;
  }

  /** What a single entry accounts for: itself, in the list its kind selects, and what lies below
      it when the walk enters it. */
  lemma OneNode(n: Node)
    ensures PyFiles([n]) == (if PyIsDir(n) then [] else [n.resolved]) + (if PyDescends(n) then PyFiles(n.children) else [])
    ensures PyDirs([n]) == (if PyIsDir(n) then [n.resolved] else []) + (if PyDescends(n) then PyDirs(n.children) else [])
  {
    assert [n][1..] == [];
  }

  /** A child that is not a directory (links followed) is recorded as a file. */
  method VisitFile(child: Node, files: seq<Path>) returns (files': seq<Path>)
    requires !PyIsDir(child)
    ensures multiset(files') == multiset(files) + multiset(PyFiles([child]))
    ensures PyDirs([child]) == [] && Size([child]) > 0
  {
    OneNode(child);
    files' := files + [child.resolved];
  }

  /** A directory child is recorded and, unless it is a link, its listing is pushed; what lies below
      it moves from the listing being read onto the stack. */
  method VisitDir(child: Node, dirs: seq<Path>, stack: seq<seq<Node>>)
    returns (dirs': seq<Path>, stack': seq<seq<Node>>)
    requires PyIsDir(child)
    ensures multiset(dirs') + StackDirs(stack') == multiset(dirs) + StackDirs(stack) + multiset(PyDirs([child]))
    ensures StackFiles(stack') == StackFiles(stack) + multiset(PyFiles([child]))
    ensures StackSize(stack') <= StackSize(stack) + Size([child])
  {
    OneNode(child);
    dirs' := dirs + [child.resolved];
    assert multiset(dirs') == multiset(dirs) + multiset{child.resolved};
    var below: multiset<Path> := multiset{};
    if PyDescends(child) {
      StackPush(stack, child.children);
      stack' := stack + [child.children];
      below := multiset(PyDirs(child.children));
      assert multiset(PyDirs([child])) == multiset{child.resolved} + below;
    } else if !child.link {
      StackPush(stack, []);
      stack' := stack + [[]];
      assert PyDirs([child]) == [child.resolved];
      assert StackDirs(stack') == StackDirs(stack) + below;
      assert StackFiles(stack') == StackFiles(stack) + multiset(PyFiles([child]));
    } else {
      stack' := stack;
      assert PyDirs([child]) == [child.resolved];
      assert StackDirs(stack') == StackDirs(stack) + below;
      assert StackFiles(stack') == StackFiles(stack) + multiset(PyFiles([child]));
    }
    Account(multiset(dirs), multiset(dirs'), StackDirs(stack), StackDirs(stack'),
      multiset{child.resolved}, below, multiset(PyDirs([child])));
  }

  /** One child of the listing being read: what it accounts for moves from the listing to the
      recorded lists and the stack. */
  method Visit(child: Node, files: seq<Path>, dirs: seq<Path>, stack: seq<seq<Node>>)
    returns (files': seq<Path>, dirs': seq<Path>, stack': seq<seq<Node>>)
    ensures multiset(files') + StackFiles(stack') == multiset(files) + StackFiles(stack) + multiset(PyFiles([child]))
    ensures multiset(dirs') + StackDirs(stack') == multiset(dirs) + StackDirs(stack) + multiset(PyDirs([child]))
    ensures StackSize(stack') <= StackSize(stack) + Size([child])
  {
    if PyIsDir(child) {
      files' := files;
      dirs', stack' := VisitDir(child, dirs, stack);
      Account(multiset(files), multiset(files'), StackFiles(stack), StackFiles(stack'),
        multiset{}, multiset(PyFiles([child])), multiset(PyFiles([child])));
    } else {
      files' := VisitFile(child, files);
      dirs', stack' := dirs, stack;
      Account(multiset(files), multiset(files'), StackFiles(stack), StackFiles(stack'),
        multiset(PyFiles([child])), multiset{}, multiset(PyFiles([child])));
      Account(multiset(dirs), multiset(dirs'), StackDirs(stack), StackDirs(stack'),
        multiset{}, multiset{}, multiset(PyDirs([child])));
    }
  }

  /** Reading one popped listing: every child is visited in listing order. */
  method Drain(current: seq<Node>, files: seq<Path>, dirs: seq<Path>, stack: seq<seq<Node>>)
    returns (files': seq<Path>, dirs': seq<Path>, stack': seq<seq<Node>>)
    ensures multiset(files') + StackFiles(stack') == multiset(files) + StackFiles(stack) + multiset(PyFiles(current))
    ensures multiset(dirs') + StackDirs(stack') == multiset(dirs) + StackDirs(stack) + multiset(PyDirs(current))
    ensures StackSize(stack') <= StackSize(stack) + Size(current)
  {
    files', dirs', stack' := files, dirs, stack;
    assert current[0..] == current;
    var i := 0;
    while i < |current|
      invariant i <= |current|
      invariant multiset(files') + StackFiles(stack') + multiset(PyFiles(current[i..]))
             == multiset(files) + StackFiles(stack) + multiset(PyFiles(current))
      invariant multiset(dirs') + StackDirs(stack') + multiset(PyDirs(current[i..]))
             == multiset(dirs) + StackDirs(stack) + multiset(PyDirs(current))
      invariant StackSize(stack') + Size(current[i..]) <= StackSize(stack) + Size(current)
    {
      VisitSplit(current, i);
      ghost var before := multiset(files') + StackFiles(stack');
      ghost var beforeDirs := multiset(dirs') + StackDirs(stack');
      files', dirs', stack' := Visit(current[i], files', dirs', stack');
      MoveAccount(before, multiset(files') + StackFiles(stack'), multiset(PyFiles([current[i]])),
        multiset(PyFiles(current[i..])), multiset(PyFiles(current[i + 1..])),
        multiset(files) + StackFiles(stack) + multiset(PyFiles(current)));
      MoveAccount(beforeDirs, multiset(dirs') + StackDirs(stack'), multiset(PyDirs([current[i]])),
        multiset(PyDirs(current[i..])), multiset(PyDirs(current[i + 1..])),
        multiset(dirs) + StackDirs(stack) + multiset(PyDirs(current)));
      i := i + 1;
    }
    assert current[i..] == [];
  }

  /** Bookkeeping for popping: draining the popped listing `p` accounts for what the stack held. */
  lemma Regroup(f: multiset<Path>, rest: multiset<Path>, p: multiset<Path>, full: multiset<Path>,
                total: multiset<Path>, x': multiset<Path>)
    requires x' == f + rest + p && full == rest + p && f + full == total
    ensures x' == total
  {
  }

  /** Bookkeeping for the stack loops: moving `m` from what is left to visit (`rest`) into what is
      accounted for (`x`) keeps the total. */
  lemma MoveAccount(x: multiset<Path>, x': multiset<Path>, m: multiset<Path>, rest: multiset<Path>,
                    rest': multiset<Path>, total: multiset<Path>)
    requires x' == x + m && rest == m + rest' && x + rest == total
    ensures x' + rest' == total
  {
  }

  /** The stack loop of `_walk` over one readable root: pop a listing, record each child (resolved),
      and push the listing of every child that is a directory and not a link. */
  method StackWalk(top: seq<Node>) returns (w: Walked)
    ensures multiset(w.files) == multiset(PyFiles(top))
    ensures multiset(w.dirs) == multiset(PyDirs(top))
  {
    var files: seq<Path> := [];
    var dirs: seq<Path> := [];
    var stack := [top];
    StackPush([], top);
    while stack != []
      invariant multiset(files) + StackFiles(stack) == multiset(PyFiles(top))
      invariant multiset(dirs) + StackDirs(stack) == multiset(PyDirs(top))
      decreases StackSize(stack)
    {
      var current := stack[|stack| - 1];
      StackPop(stack);
      var rest := stack[..|stack| - 1];
      ghost var (f0, d0, s0) := (files, dirs, stack);
      files, dirs, stack := Drain(current, files, dirs, rest);
      Regroup(multiset(f0), StackFiles(rest), multiset(PyFiles(current)), StackFiles(s0),
        multiset(PyFiles(top)), multiset(files) + StackFiles(stack));
      Regroup(multiset(d0), StackDirs(rest), multiset(PyDirs(current)), StackDirs(s0),
        multiset(PyDirs(top)), multiset(dirs) + StackDirs(stack));
    }
    w := Walked(files, dirs);
  }

  /** `_walk` of the Python prototype. The root is resolved first; a root that does not exist raises
      (modelled as `Err`), while one that is unreadable or not a directory yields nothing. */
  method WalkPrototype(fs: FileSystem, root: Path) returns (r: Result<Walked>)
    ensures r.Err? <==> ListDir(fs, Canon(fs, root)).NotFound?
    ensures r.Ok? && !ListDir(fs, Canon(fs, root)).Listed? ==> r.value == Walked([], [])
    ensures r.Ok? && ListDir(fs, Canon(fs, root)).Listed? ==>
      && multiset(r.value.files) == multiset(PyFiles(ListDir(fs, Canon(fs, root)).entries))
      && multiset(r.value.dirs) == multiset(PyDirs(ListDir(fs, Canon(fs, root)).entries))
  {
    match ListDir(fs, Canon(fs, root))
    case NotFound =>
      r := Err("directory not found");
    case Denied =>
      r := Ok(Walked([], []));
    case NotADirectory =>
      r := Ok(Walked([], []));
    case Listed(top) =>
      var w := StackWalk(top);
      r := Ok(w);
  }

  /** `walk_entries` of the Python prototype. */
  method WalkEntriesPrototype(fs: FileSystem, root: Path, includeFiles: bool, includeDirs: bool)
    returns (r: Result<seq<Path>>)
    ensures r.Err? <==> ListDir(fs, Canon(fs, root)).NotFound?
    ensures r.Ok? && ListDir(fs, Canon(fs, root)).Listed? ==>
      multiset(r.value) ==
        (if includeFiles then multiset(PyFiles(ListDir(fs, Canon(fs, root)).entries)) else multiset{})
        + (if includeDirs then multiset(PyDirs(ListDir(fs, Canon(fs, root)).entries)) else multiset{})
    ensures r.Ok? && !ListDir(fs, Canon(fs, root)).Listed? ==> r.value == []
  {
    var w := WalkPrototype(fs, root);
    match w
    case Err(e) =>
      r := Err(e);
    case Ok(walked) =>
      r := Ok((if includeFiles then walked.files else []) + (if includeDirs then walked.dirs else []));
  }

  /** What a listing accounts for when files and directories go into one list. */
  function Everything(ns: seq<Node>): multiset<Path> {
    multiset(PyFiles(ns)) + multiset(PyDirs(ns))
  }

  function StackEverything(stack: seq<seq<Node>>): multiset<Path> {
    if stack == [] then multiset{} else StackEverything(stack[..|stack| - 1]) + Everything(stack[|stack| - 1])
  }

  lemma StackEverythingPush(stack: seq<seq<Node>>, top: seq<Node>)
    ensures StackEverything(stack + [top]) == StackEverything(stack) + Everything(top)
  {
    assert (stack + [top])[..|stack|] == stack;
  }

  lemma EverythingOne(n: Node)
    ensures Everything([n]) == multiset{n.resolved} + (if PyDescends(n) then Everything(n.children) else multiset{})
    ensures Size([n]) == 1 + Size(n.children)
  {
    OneNode(n);
  }

  lemma StackSizePush(stack: seq<seq<Node>>, top: seq<Node>)
    ensures StackSize(stack + [top]) == StackSize(stack) + 1 + Size(top)
  {
    assert (stack + [top])[..|stack|] == stack;
  }

  /** One child in the legacy walk: recorded whatever it is; pushed when it is a directory and not
      a link. */
  method VisitLegacy(child: Node, items: seq<Path>, stack: seq<seq<Node>>)
    returns (items': seq<Path>, stack': seq<seq<Node>>)
    ensures multiset(items') + StackEverything(stack') == multiset(items) + StackEverything(stack) + Everything([child])
    ensures StackSize(stack') <= StackSize(stack) + Size([child])
  {
    EverythingOne(child);
    items' := items + [child.resolved];
    assert multiset(items') == multiset(items) + multiset{child.resolved};
    var below: multiset<Path> := multiset{};
    if PyDescends(child) {
      StackSizePush(stack, child.children);
      StackEverythingPush(stack, child.children);
      stack' := stack + [child.children];
      below := Everything(child.children);
    } else if PyIsDir(child) && !child.link {
      StackSizePush(stack, []);
      StackEverythingPush(stack, []);
      stack' := stack + [[]];
    } else {
      stack' := stack;
    }
    Account(multiset(items), multiset(items'), StackEverything(stack), StackEverything(stack'),
      multiset{child.resolved}, below, Everything([child]));
  }

  /** Bookkeeping for one visit: what the child accounts for is split between the recorded list and
      the stack. */
  lemma Account(x: multiset<Path>, x': multiset<Path>, y: multiset<Path>, y': multiset<Path>,
                m1: multiset<Path>, m2: multiset<Path>, m: multiset<Path>)
    requires x' == x + m1 && y' == y + m2 && m == m1 + m2
    ensures x' + y' == x + y + m
  {
  }

  method DrainLegacy(current: seq<Node>, items: seq<Path>, stack: seq<seq<Node>>)
    returns (items': seq<Path>, stack': seq<seq<Node>>)
    ensures multiset(items') + StackEverything(stack') == multiset(items) + StackEverything(stack) + Everything(current)
    ensures StackSize(stack') <= StackSize(stack) + Size(current)
  {
    items', stack' := items, stack;
    assert current[0..] == current;
    var i := 0;
    while i < |current|
      invariant i <= |current|
      invariant multiset(items') + StackEverything(stack') + Everything(current[i..])
             == multiset(items) + StackEverything(stack) + Everything(current)
      invariant StackSize(stack') + Size(current[i..]) <= StackSize(stack) + Size(current)
    {
      EverythingSplit(current, i);
      ghost var before := multiset(items') + StackEverything(stack');
      items', stack' := VisitLegacy(current[i], items', stack');
      MoveAccount(before, multiset(items') + StackEverything(stack'), Everything([current[i]]),
        Everything(current[i..]), Everything(current[i + 1..]),
        multiset(items) + StackEverything(stack) + Everything(current));
      i := i + 1;
    }
    assert current[i..] == [];
  }

  /** `walk_entries` of the legacy package: one list of resolved children, files and directories
      interleaved in stack order, with the same descent rule. */
  method WalkEntriesLegacy(fs: FileSystem, root: Path) returns (r: Result<seq<Path>>)
    ensures r.Err? <==> ListDir(fs, Canon(fs, root)).NotFound?
    ensures r.Ok? && ListDir(fs, Canon(fs, root)).Listed? ==>
      multiset(r.value) == multiset(PyFiles(ListDir(fs, Canon(fs, root)).entries))
                           + multiset(PyDirs(ListDir(fs, Canon(fs, root)).entries))
    ensures r.Ok? && !ListDir(fs, Canon(fs, root)).Listed? ==> r.value == []
  {
    match ListDir(fs, Canon(fs, root))
    case NotFound =>
      r := Err("directory not found");
    case Denied =>
      r := Ok([]);
    case NotADirectory =>
      r := Ok([]);
    case Listed(top) =>
      var items: seq<Path> := [];
      var stack := [top];
      StackPush([], top);
      StackEverythingPush([], top);
      while stack != []
        invariant multiset(items) + StackEverything(stack) == Everything(top)
        decreases StackSize(stack)
      {
        var current := stack[|stack| - 1];
        StackPop(stack);
        var rest := stack[..|stack| - 1];
        ghost var (i0, s0) := (items, stack);
        assert StackEverything(s0) == StackEverything(rest) + Everything(current);
        items, stack := DrainLegacy(current, items, rest);
        Regroup(multiset(i0), StackEverything(rest), Everything(current), StackEverything(s0),
          Everything(top), multiset(items) + StackEverything(stack));
      }
      r := Ok(items);
  }
}
