/** Character-level string helpers shared by the query compiler, the matcher, the manifest
    reader/writer and the highlighter. Strings are `seq<char>`; only ASCII case folding and
    ASCII whitespace are modelled. */
module Text {

  /** ASCII whitespace, the separators of `split_whitespace`/`split()` and what `trim`/`strip` remove. */
  predicate IsSpace(c: char) {
    c == ' ' || c == '\t' || c == '\n' || c == '\r' || c == '\U{000B}' || c == '\U{000C}'
  }

  predicate NoSpace(s: string) {
    forall i :: 0 <= i < |s| ==> !IsSpace(s[i])
  }

  predicate AllSpace(s: string) {
    forall i :: 0 <= i < |s| ==> IsSpace(s[i])
  }

  predicate IsAscii(c: char) {
    c as int < 128
  }

  /** ASCII lower-casing (`to_ascii_lowercase`): only 'A'..'Z' change. */
  function Lower(c: char): char {
    if 'A' <= c <= 'Z' then (c as int + 32) as char else c
  }

  function LowerStr(s: string): (r: string)
    ensures |r| == |s|
  {
    if s == [] then [] else [Lower(s[0])] + LowerStr(s[1..])
  }

  /** `LowerStr` lower-cases each character in place. */
  lemma {:induction false} LowerStrAt(s: string)
    ensures forall i :: 0 <= i < |s| ==> LowerStr(s)[i] == Lower(s[i])
  {
    if s != [] {
      LowerStrAt(s[1..]);
    }
  }

  predicate StartsWith(s: string, p: string) {
    |p| <= |s| && s[..|p|] == p
  }

  predicate EndsWith(s: string, p: string) {
    |p| <= |s| && s[|s| - |p|..] == p
  }

  predicate OccursAt(s: string, p: string, i: int) {
    0 <= i && i + |p| <= |s| && s[i..i + |p|] == p
  }

  /** Substring test (`str::contains`, Python `in`), as a scan over the start positions. */
  predicate Contains(s: string, p: string)
    decreases |s|
  {
    StartsWith(s, p) || (s != [] && Contains(s[1..], p))
  }

  /** The scan finds `p` exactly when `p` occurs at some position of `s`. */
  lemma {:induction false} ContainsIffOccurs(s: string, p: string)
    ensures Contains(s, p) <==> exists i :: OccursAt(s, p, i)
    decreases |s|
  {
    assert StartsWith(s, p) <==> OccursAt(s, p, 0);
    if s != [] {
      ContainsIffOccurs(s[1..], p);
      forall i | OccursAt(s[1..], p, i)
        ensures OccursAt(s, p, i + 1)
      {
        assert s[1..][i..i + |p|] == s[i + 1..i + 1 + |p|];
      }
      forall i | OccursAt(s, p, i) && i > 0
        ensures OccursAt(s[1..], p, i - 1)
      {
        assert s[1..][i - 1..i - 1 + |p|] == s[i..i + |p|];
      }
    } else {
      forall i | OccursAt(s, p, i)
        ensures i == 0
      {
      }
    }
  }

  lemma StartsWithContains(s: string, p: string)
    requires StartsWith(s, p)
    ensures Contains(s, p)
  {
  }

  lemma EndsWithContains(s: string, p: string)
    requires EndsWith(s, p)
    ensures Contains(s, p)
  {
    assert OccursAt(s, p, |s| - |p|);
    ContainsIffOccurs(s, p);
  }

  // ---------------------------------------------------------------------------------------
  // Tokenising (`str::split_whitespace`, Python `str.split()`)
  // ---------------------------------------------------------------------------------------

  /** Length of the run of non-space characters that starts `s`. */
  function WordLen(s: string): (n: nat)
    ensures n <= |s|
    ensures NoSpace(s[..n])
    ensures n < |s| ==> IsSpace(s[n])
  {
    if s == [] || IsSpace(s[0]) then 0
    else
      var m := WordLen(s[1..]);
      assert s[..1 + m] == [s[0]] + s[1..][..m];
      1 + m
  }

  function SplitWhitespace(s: string): (r: seq<string>)
    ensures forall i :: 0 <= i < |r| ==> r[i] != [] && NoSpace(r[i])
    decreases |s|
  {
    if s == [] then []
    else if IsSpace(s[0]) then SplitWhitespace(s[1..])
    else
      var n := WordLen(s);
      [s[..n]] + SplitWhitespace(s[n..])
  }

  function Flatten(ss: seq<string>): string {
    if ss == [] then [] else ss[0] + Flatten(ss[1..])
  }

  /** The non-space characters of `s`, in order. */
  function RemoveSpaces(s: string): string {
    if s == [] then [] else (if IsSpace(s[0]) then [] else [s[0]]) + RemoveSpaces(s[1..])
  }

  lemma {:induction false} RemoveSpacesAppend(a: string, b: string)
    ensures RemoveSpaces(a + b) == RemoveSpaces(a) + RemoveSpaces(b)
    decreases |a|
  {
    if a != [] {
      var h := if IsSpace(a[0]) then [] else [a[0]];
      assert (a + b)[0] == a[0];
      assert (a + b)[1..] == a[1..] + b;
      RemoveSpacesAppend(a[1..], b);
      calc {
        RemoveSpaces(a + b);
        h + RemoveSpaces(a[1..] + b);
        h + (RemoveSpaces(a[1..]) + RemoveSpaces(b));
        (h + RemoveSpaces(a[1..])) + RemoveSpaces(b);
      }
    } else {
      assert a + b == b;
    }
  }

  lemma {:induction false} RemoveSpacesOfNoSpace(s: string)
    requires NoSpace(s)
    ensures RemoveSpaces(s) == s
    decreases |s|
  {
    if s != [] {
      RemoveSpacesOfNoSpace(s[1..]);
    }
  }

  /** Tokenising loses exactly the whitespace: the tokens, glued together, are the non-space
      characters of the input in their original order. */
  lemma {:induction false} SplitWhitespaceKeepsText(s: string)
    ensures Flatten(SplitWhitespace(s)) == RemoveSpaces(s)
    decreases |s|
  {
    if s == [] {
    } else if IsSpace(s[0]) {
      SplitWhitespaceKeepsText(s[1..]);
    } else {
      var n := WordLen(s);
      assert s == s[..n] + s[n..];
      RemoveSpacesAppend(s[..n], s[n..]);
      RemoveSpacesOfNoSpace(s[..n]);
      SplitWhitespaceKeepsText(s[n..]);
      assert SplitWhitespace(s)[1..] == SplitWhitespace(s[n..]);
    }
  }

  /** A string yields no tokens exactly when it is all whitespace. */
  lemma {:induction false} SplitWhitespaceEmptyIffBlank(s: string)
    ensures SplitWhitespace(s) == [] <==> AllSpace(s)
    decreases |s|
  {
    if s != [] && IsSpace(s[0]) {
      SplitWhitespaceEmptyIffBlank(s[1..]);
      if AllSpace(s[1..]) {
        forall i | 0 <= i < |s| ensures IsSpace(s[i]) {
          if i > 0 { assert s[i] == s[1..][i - 1]; }
        }
      }
    }
  }

  function JoinWith(parts: seq<string>, sep: string): string {
    if parts == [] then []
    else if |parts| == 1 then parts[0]
    else parts[0] + sep + JoinWith(parts[1..], sep)
  }

  lemma {:induction false} WordLenOfWord(t: string, rest: string)
    requires NoSpace(t)
    requires rest == [] || IsSpace(rest[0])
    ensures WordLen(t + rest) == |t|
    decreases |t|
  {
    if t != [] {
      assert (t + rest)[1..] == t[1..] + rest;
      WordLenOfWord(t[1..], rest);
    }
  }

  /** Rendering space-free tokens with single spaces and tokenising again gives them back. */
  lemma {:induction false} SplitJoinRoundTrip(toks: seq<string>)
    requires forall i :: 0 <= i < |toks| ==> toks[i] != [] && NoSpace(toks[i])
    ensures SplitWhitespace(JoinWith(toks, " ")) == toks
    decreases |toks|
  {
    if |toks| == 1 {
      WordLenOfWord(toks[0], []);
      assert toks[0][..|toks[0]|] == toks[0];
    } else if |toks| > 1 {
      var t := toks[0];
      var rest := " " + JoinWith(toks[1..], " ");
      assert JoinWith(toks, " ") == t + rest;
      WordLenOfWord(t, rest);
      assert (t + rest)[..|t|] == t;
      assert (t + rest)[|t|..] == rest;
      assert rest[1..] == JoinWith(toks[1..], " ");
      SplitJoinRoundTrip(toks[1..]);
    }
  }

  // ---------------------------------------------------------------------------------------
  // Trimming (`str::trim`, Python `str.strip()`)
  // ---------------------------------------------------------------------------------------

  function LeadingSpaces(s: string): (n: nat)
    ensures n <= |s|
    ensures AllSpace(s[..n])
    ensures n < |s| ==> !IsSpace(s[n])
  {
    if s == [] || !IsSpace(s[0]) then 0
    else
      var m := LeadingSpaces(s[1..]);
      assert s[..1 + m] == [s[0]] + s[1..][..m];
      1 + m
  }

  /** Index where the trailing run of whitespace starts. */
  function TrailingStart(s: string): (n: nat)
    ensures n <= |s|
    ensures AllSpace(s[n..])
    ensures n > 0 ==> !IsSpace(s[n - 1])
  {
    if s == [] || !IsSpace(s[|s| - 1]) then |s|
    else
      var m := TrailingStart(s[..|s| - 1]);
      assert s[m..] == s[..|s| - 1][m..] + [s[|s| - 1]];
      m
  }

  lemma TrimBounds(s: string)
    ensures LeadingSpaces(s) >= TrailingStart(s) <==> AllSpace(s)
  {
    var i := LeadingSpaces(s);
    var j := TrailingStart(s);
    if i >= j {
      forall m | 0 <= m < |s|
        ensures IsSpace(s[m])
      {
        if m >= j {
          assert s[j..][m - j] == s[m];
        }
        if m < i {
          assert s[..i][m] == s[m];
        }
      }
    } else {
      assert i < |s| && !IsSpace(s[i]);
    }
  }

  function Trim(s: string): (r: string)
    ensures r == [] <==> AllSpace(s)
    ensures r != [] ==> !IsSpace(r[0]) && !IsSpace(r[|r| - 1])
    ensures exists i :: 0 <= i <= |s| - |r| && OccursAt(s, r, i)
  {
    var i := LeadingSpaces(s);
    var j := TrailingStart(s);
    TrimBounds(s);
    if j <= i then
      assert OccursAt(s, [], 0);
      []
    else
      assert OccursAt(s, s[i..j], i);
      s[i..j]
  }

  /** A string with no whitespace at either end is its own trim. */
  lemma TrimOfWord(s: string)
    requires s != [] && !IsSpace(s[0]) && !IsSpace(s[|s| - 1])
    ensures Trim(s) == s
  {
    assert LeadingSpaces(s) == 0;
    assert TrailingStart(s) == |s|;
  }

  /** Trimming a string that starts with a non-space keeps that first character. */
  lemma TrimKeepsFirst(s: string)
    requires s != [] && !IsSpace(s[0])
    ensures Trim(s) != [] && Trim(s)[0] == s[0]
  {
    assert LeadingSpaces(s) == 0;
    assert !AllSpace(s);
  }

  /** One whitespace character before or after a word is trimmed away. */
  lemma TrimDropsOuterSpace(w: string, c: char)
    requires w != [] && !IsSpace(w[0]) && !IsSpace(w[|w| - 1]) && IsSpace(c)
    ensures Trim([c] + w) == w && Trim(w + [c]) == w
  {
    var s := [c] + w;
    assert s[1..] == w;
    assert LeadingSpaces(w) == 0;
    assert LeadingSpaces(s) == 1;
    assert TrailingStart(s) == |s|;
    assert s[1..|s|] == w;
    var t := w + [c];
    assert t[..|t| - 1] == w;
    assert TrailingStart(w) == |w|;
    assert TrailingStart(t) == |w|;
    assert LeadingSpaces(t) == 0;
    assert t[0..|w|] == w;
  }

  /** A string that is blank after trimming is exactly one that yields no tokens. */
  lemma TrimEmptyIffNoTokens(s: string)
    ensures Trim(s) == [] <==> SplitWhitespace(s) == []
  {
    SplitWhitespaceEmptyIffBlank(s);
  }

  // ---------------------------------------------------------------------------------------
  // Lines (`str::lines`)
  // ---------------------------------------------------------------------------------------

  function LineLen(t: string): (n: nat)
    ensures n <= |t|
    ensures forall k :: 0 <= k < n ==> t[k] != '\n'
    ensures n < |t| ==> t[n] == '\n'
  {
    if t == [] || t[0] == '\n' then 0 else 1 + LineLen(t[1..])
  }

  /** `str::lines`: split at '\n', drop a '\r' that precedes the '\n', and yield no final empty line. */
  function Lines(t: string): seq<string>
    decreases |t|
  {
    if t == [] then []
    else
      var n := LineLen(t);
      if n == |t| then [t]
      else
        var line := if n > 0 && t[n - 1] == '\r' then t[..n - 1] else t[..n];
        [line] + Lines(t[n + 1..])
  }

  /** Every line followed by its own '\n'. */
  function Terminated(ls: seq<string>): string {
    if ls == [] then [] else ls[0] + "\n" + Terminated(ls[1..])
  }

  predicate IsLine(l: string) {
    '\n' !in l && (l == [] || l[|l| - 1] != '\r')
  }

  lemma {:induction false} LinesOfTerminated(ls: seq<string>)
    requires forall i :: 0 <= i < |ls| ==> IsLine(ls[i])
    ensures Lines(Terminated(ls)) == ls
    decreases |ls|
  {
    if ls != [] {
      var l := ls[0];
      var t := Terminated(ls);
      var rest := Terminated(ls[1..]);
      assert t == l + "\n" + rest;
      var n := LineLen(t);
      assert t[|l|] == '\n';
      assert n == |l|;
      assert t[..n] == l;
      assert t[n + 1..] == rest;
      LinesOfTerminated(ls[1..]);
    }
  }

  lemma {:induction false} JoinIsTerminated(ls: seq<string>)
    requires ls != []
    ensures JoinWith(ls, "\n") + "\n" == Terminated(ls)
    decreases |ls|
  {
    if |ls| > 1 {
      JoinIsTerminated(ls[1..]);
    }
  }

  // ---------------------------------------------------------------------------------------
  // Lines (Python `str.splitlines`)
  // ---------------------------------------------------------------------------------------

  /** The line boundaries of `str.splitlines`; "\r\n" counts as one boundary. */
  predicate IsLineBreak(c: char) {
    || c == '\n' || c == '\r' || c == '\U{000B}' || c == '\U{000C}' || c == '\U{001C}'
    || c == '\U{001D}' || c == '\U{001E}' || c == '\U{0085}' || c == '\U{2028}' || c == '\U{2029}'
  }

  predicate NoLineBreak(s: string) {
    forall i :: 0 <= i < |s| ==> !IsLineBreak(s[i])
  }

  function BreakAt(t: string): (n: nat)
    ensures n <= |t|
    ensures NoLineBreak(t[..n])
    ensures n < |t| ==> IsLineBreak(t[n])
  {
    if t == [] || IsLineBreak(t[0]) then 0
    else
      var m := BreakAt(t[1..]);
      assert t[..1 + m] == [t[0]] + t[1..][..m];
      1 + m
  }

  /** `str.splitlines()`: split at every line boundary and yield no final empty line. */
  function SplitLines(t: string): (r: seq<string>)
    ensures forall i :: 0 <= i < |r| ==> NoLineBreak(r[i])
    decreases |t|
  {
    if t == [] then []
    else
      var n := BreakAt(t);
      if n == |t| then [t]
      else
        var skip := if t[n] == '\r' && n + 1 < |t| && t[n + 1] == '\n' then 2 else 1;
        [t[..n]] + SplitLines(t[n + skip..])
  }

  lemma {:induction false} SplitLinesOfTerminated(ls: seq<string>)
    requires forall i :: 0 <= i < |ls| ==> NoLineBreak(ls[i])
    ensures SplitLines(Terminated(ls)) == ls
    decreases |ls|
  {
    if ls != [] {
      var l := ls[0];
      var t := Terminated(ls);
      var rest := Terminated(ls[1..]);
      assert t == l + "\n" + rest;
      assert t[..|l|] == l;
      assert t[|l|] == '\n';
      assert BreakAt(t) == |l|;
      assert t[|l| + 1..] == rest;
      SplitLinesOfTerminated(ls[1..]);
    }
  }
}

/** Generic sequence helpers. */
module Seqs {

  predicate NoDups<T(==)>(s: seq<T>) {
    forall i, j :: 0 <= i < j < |s| ==> s[i] != s[j]
  }

  /** First-seen de-duplication, built the way the source's `seen`/`out` loops build it:
      the last element is kept exactly when it did not occur earlier. */
  function Dedup<T(==,!new)>(s: seq<T>): (r: seq<T>)
    ensures NoDups(r)
    ensures forall x :: x in r <==> x in s
    ensures |r| <= |s|
  {
    if s == [] then []
    else
      var d := Dedup(s[..|s| - 1]);
      var x := s[|s| - 1];
      assert forall y :: y in s <==> y in s[..|s| - 1] || y == x by {
        assert s == s[..|s| - 1] + [x];
      }
      if x in s[..|s| - 1] then d else d + [x]
  }

  /** Concatenation is associative; stated once so that proofs can regroup without the solver
      rediscovering it in a large context. */
  lemma AppendAssoc<T>(a: seq<T>, b: seq<T>, c: seq<T>)
    ensures (a + b) + c == a + (b + c)
  {
  }

  lemma DedupSnoc<T(!new)>(s: seq<T>, x: T)
    ensures Dedup(s + [x]) == if x in s then Dedup(s) else Dedup(s) + [x]
  {
    assert (s + [x])[..|s + [x]| - 1] == s;
  }

  /** Where `x` first occurs in `s`. */
  function FirstIndex<T(==)>(s: seq<T>, x: T): (k: nat)
    requires x in s
    ensures k < |s| && s[k] == x
    ensures forall m :: 0 <= m < k ==> s[m] != x
  {
    if s[0] == x then 0 else 1 + FirstIndex(s[1..], x)
  }

  /** `Dedup` lists the distinct elements in the order of their first occurrence. */
  lemma DedupOrder<T(!new)>(s: seq<T>)
    ensures forall i, j :: 0 <= i < j < |Dedup(s)| ==> FirstIndex(s, Dedup(s)[i]) < FirstIndex(s, Dedup(s)[j])
  {
    var r := Dedup(s);
    forall i, j | 0 <= i < j < |r| ensures FirstIndex(s, r[i]) < FirstIndex(s, r[j]) {
      var b := FirstIndex(s, r[j]);
      DedupFirstSeen(s, i, j, b);
    }
  }

  /** `Dedup` keeps first-seen order: wherever a later element of the result occurs in `s`, each
      earlier element of the result has already occurred before it. */
  lemma {:induction false} DedupFirstSeen<T(!new)>(s: seq<T>, i: nat, j: nat, b: nat)
    requires i < j < |Dedup(s)| && b < |s| && s[b] == Dedup(s)[j]
    ensures exists a :: 0 <= a < b && s[a] == Dedup(s)[i]
    decreases |s|
  {
    var init := s[..|s| - 1];
    var x := s[|s| - 1];
    var d := Dedup(init);
    assert Dedup(s) == if x in init then d else d + [x];
    assert i < |d|;
    assert Dedup(s)[i] == d[i];
    if b < |init| {
      assert init[b] == s[b];
      if j < |d| {
        DedupFirstSeen(init, i, j, b);
        var a :| 0 <= a < b && init[a] == d[i];
        assert s[a] == init[a];
      }
    } else {
      assert d[i] in init;
      var a :| 0 <= a < |init| && init[a] == d[i];
      assert s[a] == init[a];
    }
  }

  lemma {:induction false} DedupOfNoDups<T(!new)>(s: seq<T>)
    requires NoDups(s)
    ensures Dedup(s) == s
    decreases |s|
  {
    if s != [] {
      var p := s[..|s| - 1];
      assert NoDups(p);
      DedupOfNoDups(p);
      assert s == p + [s[|s| - 1]];
    }
  }
}
