/** Paths as component lists. Rust's `Path::strip_prefix`, `join`, `file_name` and `Ord`, and
    Python's `relative_to`, `/` and `.name`, all work component by component, so a path is
    modelled as its components rather than as a flat string. */
module Paths {
  import opened Wrappers
  import opened Text

  /** `absolute` holds when the path starts at the filesystem root ("/"). */
  datatype Path = Path(absolute: bool, parts: seq<string>)

  /** A normal component: non-empty, not ".", and free of separators. */
  predicate ValidPart(c: string) {
    c != [] && c != "." && '/' !in c
  }

  predicate WellFormed(p: Path) {
    forall i :: 0 <= i < |p.parts| ==> ValidPart(p.parts[i])
  }

  /** `to_string_lossy()` / `str(path)`. */
  function ToString(p: Path): string {
    (if p.absolute then "/" else "") + JoinWith(p.parts, "/")
  }

  /** `file_name()` / `.name`: the last component, or "" when there is none. */
  function FileName(p: Path): string {
    if p.parts == [] then "" else p.parts[|p.parts| - 1]
  }

  /** `base.join(p)` / `base / p`: an absolute `p` replaces `base`. */
  function Join(base: Path, p: Path): (r: Path)
    ensures p.absolute ==> r == p
    ensures !p.absolute ==> r.absolute == base.absolute && r.parts == base.parts + p.parts
  {
    if p.absolute then p else Path(base.absolute, base.parts + p.parts)
  }

  predicate IsUnder(p: Path, base: Path) {
    p.absolute == base.absolute && |base.parts| <= |p.parts| && p.parts[..|base.parts|] == base.parts
  }

  /** `strip_prefix` / `relative_to`: succeeds when `base`'s components start `p`'s. */
  function StripPrefix(p: Path, base: Path): Option<Path> {
    if IsUnder(p, base) then Some(Path(false, p.parts[|base.parts|..])) else None
  }

  /** Stripping a prefix and joining it back are inverse. */
  lemma StripThenJoin(p: Path, base: Path)
    requires StripPrefix(p, base).Some?
    ensures Join(base, StripPrefix(p, base).value) == p
  {
    assert p.parts == p.parts[..|base.parts|] + p.parts[|base.parts|..];
  }

  /** A path lies under itself, with nothing left over. */
  lemma StripSelf(p: Path)
    ensures StripPrefix(p, p) == Some(Path(false, []))
  {
    assert IsUnder(p, p) by {
      assert p.parts[..|p.parts|] == p.parts;
    }
    assert p.parts[|p.parts|..] == [];
  }

  lemma JoinThenStrip(base: Path, rel: Path)
    requires !rel.absolute
    ensures StripPrefix(Join(base, rel), base) == Some(rel)
  {
    var j := Join(base, rel);
    assert j.parts[..|base.parts|] == base.parts;
    assert j.parts[|base.parts|..] == rel.parts;
  }

  // ---------------------------------------------------------------------------------------
  // Reading a path back from text (`PathBuf::from(line)`, `Path(line)`)
  // ---------------------------------------------------------------------------------------

  function SegLen(s: string): (n: nat)
    ensures n <= |s|
    ensures '/' !in s[..n]
    ensures n < |s| ==> s[n] == '/'
  {
    if s == [] || s[0] == '/' then 0
    else
      var m := SegLen(s[1..]);
      assert s[..1 + m] == [s[0]] + s[1..][..m];
      1 + m
  }

  /** The '/'-separated segments of `s`, with empty and "." segments dropped: repeated separators
      collapse and current-directory components vanish, as in `Path::components` and `pathlib`. */
  function Segments(s: string): (r: seq<string>)
    ensures forall i :: 0 <= i < |r| ==> ValidPart(r[i])
    decreases |s|
  {
    if s == [] then []
    else
      var n := SegLen(s);
      (if n == 0 || s[..n] == "." then [] else [s[..n]]) + (if n == |s| then [] else Segments(s[n + 1..]))
  }

  function Parse(s: string): (p: Path)
    ensures WellFormed(p)
  {
    Path(|s| > 0 && s[0] == '/', Segments(s))
  }

  lemma {:induction false} SegLenOfPart(c: string, rest: string)
    requires '/' !in c
    requires rest == [] || rest[0] == '/'
    ensures SegLen(c + rest) == |c|
    decreases |c|
  {
    if c != [] {
      assert (c + rest)[1..] == c[1..] + rest;
      SegLenOfPart(c[1..], rest);
    }
  }

  lemma {:induction false} SegmentsOfJoin(parts: seq<string>)
    requires forall i :: 0 <= i < |parts| ==> ValidPart(parts[i])
    ensures Segments(JoinWith(parts, "/")) == parts
    decreases |parts|
  {
    if |parts| == 1 {
      SegLenOfPart(parts[0], []);
      assert parts[0][..|parts[0]|] == parts[0];
    } else if |parts| > 1 {
      var c := parts[0];
      var rest := "/" + JoinWith(parts[1..], "/");
      assert JoinWith(parts, "/") == c + rest;
      SegLenOfPart(c, rest);
      assert (c + rest)[..|c|] == c;
      assert (c + rest)[|c| + 1..] == JoinWith(parts[1..], "/");
      SegmentsOfJoin(parts[1..]);
    }
  }

  lemma SegmentsAfterSlash(j: string)
    ensures Segments("/" + j) == Segments(j)
  {
    var s := "/" + j;
    assert SegLen(s) == 0;
    assert s[1..] == j;
  }

  lemma JoinStartsWithPart(parts: seq<string>)
    requires parts != [] && ValidPart(parts[0])
    ensures JoinWith(parts, "/") != [] && JoinWith(parts, "/")[0] == parts[0][0]
  {
    if |parts| > 1 {
      assert JoinWith(parts, "/") == parts[0] + ("/" + JoinWith(parts[1..], "/"));
    }
  }

  /** Printing a well-formed path and reading it back gives the same path. */
  lemma ParseToString(p: Path)
    requires WellFormed(p)
    ensures Parse(ToString(p)) == p
  {
    var j := JoinWith(p.parts, "/");
    SegmentsOfJoin(p.parts);
    if p.absolute {
      assert ToString(p) == "/" + j;
      SegmentsAfterSlash(j);
    } else {
      assert ToString(p) == j;
      if p.parts != [] {
        JoinStartsWithPart(p.parts);
      }
    }
  }

  // ---------------------------------------------------------------------------------------
  // Ordering (`impl Ord for Path`): component-wise; the root component sorts before every
  // normal component, and components compare as code-point strings.
  // ---------------------------------------------------------------------------------------

  predicate StrLess(a: string, b: string) {
    if a == [] then b != []
    else b != [] && (a[0] < b[0] || (a[0] == b[0] && StrLess(a[1..], b[1..])))
  }

  predicate PartsLess(a: seq<string>, b: seq<string>) {
    if a == [] then b != []
    else b != [] && (StrLess(a[0], b[0]) || (a[0] == b[0] && PartsLess(a[1..], b[1..])))
  }

  predicate PathLess(p: Path, q: Path) {
    (p.absolute && !q.absolute) || (p.absolute == q.absolute && PartsLess(p.parts, q.parts))
  }

  lemma {:induction false} StrLessIrreflexive(a: string)
    ensures !StrLess(a, a)
    decreases |a|
  {
    if a != [] { StrLessIrreflexive(a[1..]); }
  }

  lemma {:induction false} StrLessTransitive(a: string, b: string, c: string)
    requires StrLess(a, b) && StrLess(b, c)
    ensures StrLess(a, c)
    decreases |a|
  {
    if a != [] && a[0] == b[0] && b[0] == c[0] {
      StrLessTransitive(a[1..], b[1..], c[1..]);
    }
  }

  lemma {:induction false} StrLessTotal(a: string, b: string)
    ensures a == b || StrLess(a, b) || StrLess(b, a)
    decreases |a|
  {
    if a != [] && b != [] && a[0] == b[0] {
      StrLessTotal(a[1..], b[1..]);
      if a[1..] == b[1..] {
        assert a == [a[0]] + a[1..] && b == [b[0]] + b[1..];
      }
    }
  }

  lemma {:induction false} PartsLessIrreflexive(a: seq<string>)
    ensures !PartsLess(a, a)
    decreases |a|
  {
    if a != [] {
      StrLessIrreflexive(a[0]);
      PartsLessIrreflexive(a[1..]);
    }
  }

  lemma {:induction false} PartsLessTransitive(a: seq<string>, b: seq<string>, c: seq<string>)
    requires PartsLess(a, b) && PartsLess(b, c)
    ensures PartsLess(a, c)
    decreases |a|
  {
    if a != [] {
      if StrLess(a[0], b[0]) && StrLess(b[0], c[0]) {
        StrLessTransitive(a[0], b[0], c[0]);
      } else if a[0] == b[0] && b[0] == c[0] {
        PartsLessTransitive(a[1..], b[1..], c[1..]);
      }
    }
  }

  lemma {:induction false} PartsLessTotal(a: seq<string>, b: seq<string>)
    ensures a == b || PartsLess(a, b) || PartsLess(b, a)
    decreases |a|
  {
    if a != [] && b != [] {
      StrLessTotal(a[0], b[0]);
      if a[0] == b[0] {
        PartsLessTotal(a[1..], b[1..]);
        if a[1..] == b[1..] {
          assert a == [a[0]] + a[1..] && b == [b[0]] + b[1..];
        }
      }
    }
  }

  /** `PathLess` is a strict total order, as `Ord for Path` promises. */
  lemma PathLessIsStrictTotalOrder(p: Path, q: Path, r: Path)
    ensures !PathLess(p, p)
    ensures PathLess(p, q) && PathLess(q, r) ==> PathLess(p, r)
    ensures p == q || PathLess(p, q) || PathLess(q, p)
  {
    PartsLessIrreflexive(p.parts);
    if PathLess(p, q) && PathLess(q, r) && p.absolute == q.absolute && q.absolute == r.absolute {
      PartsLessTransitive(p.parts, q.parts, r.parts);
    }
    PartsLessTotal(p.parts, q.parts);
  }
}
