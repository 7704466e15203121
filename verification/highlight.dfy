/** Highlighting result rows: which characters of a displayed path a query's terms hit, and
    whether a row shows any hit at all. Models `display_path_with_mode`, `find_match_positions`,
    `highlight_terms`, `match_positions_for_path`, `has_visible_match` and `truncate_chars` of
    rust/src/ui_model.rs, and `_display_path`, `_find_match_positions`, `_highlight_terms`,
    `has_visible_match` and the positions of `format_result_html` of the Python prototype. */
module Highlight {
  import opened Wrappers
  import opened Text
  import opened Paths
  import opened Query
  import opened Subsequences
  import opened FileSystem

  // ---------------------------------------------------------------------------------------
  // Character positions hit by one term
  // ---------------------------------------------------------------------------------------

  /** `chars_equal`: two ASCII characters compare ignoring case, any other pair exactly. */
  predicate CharsEqual(a: char, b: char) {
    if IsAscii(a) && IsAscii(b) then Lower(a) == Lower(b) else a == b
  }

  /** Comparing with `chars_equal` is comparing the lower-cased characters, which is what the
      prototype does after lower-casing both strings. */
  lemma CharsEqualIffLower(a: char, b: char)
    ensures CharsEqual(a, b) <==> Lower(a) == Lower(b)
  {
  }

  /** `query` matches `text` at `s`, character by character, with `chars_equal`. */
  predicate MatchesAt(text: string, query: string, s: int) {
    0 <= s && s + |query| <= |text| && forall k :: 0 <= k < |query| ==> CharsEqual(text[s + k], query[k])
  }

  /** A match at `s` is an occurrence of the lower-cased query in the lower-cased text, which is
      what Python's `lower_text.find(lower_query)` looks for. */
  lemma MatchesAtIffLowerOccurrence(text: string, query: string, s: int)
    ensures MatchesAt(text, query, s) <==> OccursAt(LowerStr(text), LowerStr(query), s)
  {
    LowerStrAt(text);
    LowerStrAt(query);
    if 0 <= s && s + |query| <= |text| {
      var w := LowerStr(text)[s..s + |query|];
      if MatchesAt(text, query, s) {
        forall k | 0 <= k < |query| ensures w[k] == LowerStr(query)[k] {
          CharsEqualIffLower(text[s + k], query[k]);
        }
      }
      if w == LowerStr(query) {
        forall k | 0 <= k < |query| ensures CharsEqual(text[s + k], query[k]) {
          assert w[k] == LowerStr(text)[s + k];
          CharsEqualIffLower(text[s + k], query[k]);
        }
      }
    }
  }

  /** The first start at or after `s` where `query` matches. */
  function FirstMatchFrom(text: string, query: string, s: nat): (r: Option<nat>)
    ensures r.Some? ==> s <= r.value && MatchesAt(text, query, r.value)
    ensures forall j :: s <= j && (r.None? || j < r.value) ==> !MatchesAt(text, query, j)
    decreases |text| - s
  {
    if s + |query| > |text| then None
    else if MatchesAt(text, query, s) then Some(s)
    else FirstMatchFrom(text, query, s + 1)
  }

  /** The consecutive positions `lo`, ..., `hi - 1`. */
  function Range(lo: nat, hi: nat): (r: set<nat>)
    ensures forall i :: i in r <==> lo <= i < hi
    ensures lo <= hi ==> |r| == hi - lo
    decreases hi - lo
  {
    if hi <= lo then {} else Range(lo, hi - 1) + {hi - 1}
  }

  /** The positions a scan consumed, as a set. */
  function Elems(g: seq<nat>): (r: set<nat>)
    ensures forall i :: 0 <= i < |g| ==> g[i] in r
  {
    if g == [] then {} else Elems(g[..|g| - 1]) + {g[|g| - 1]}
  }

  /** Every consumed position is below any bound of the sequence. */
  lemma {:induction false} ElemsBelow(g: seq<nat>, n: nat)
    requires forall i :: 0 <= i < |g| ==> g[i] < n
    ensures forall x :: x in Elems(g) ==> x < n
  {
    if g != [] {
      ElemsBelow(g[..|g| - 1], n);
    }
  }

  lemma ElemsSnoc(g: seq<nat>, x: nat)
    ensures Elems(g + [x]) == Elems(g) + {x}
  {
    assert (g + [x])[..|g|] == g;
  }

  /** A strictly increasing sequence has as many distinct elements as entries. */
  lemma {:induction false} ElemsSize(g: seq<nat>)
    requires forall i, j :: 0 <= i < j < |g| ==> g[i] < g[j]
    ensures |Elems(g)| == |g|
    decreases |g|
  {
    if g != [] {
      var h := g[..|g| - 1];
      ElemsSize(h);
      ElemsBelow(h, g[|g| - 1]);
    }
  }

  /** `find_match_positions` (and the prototype's `_find_match_positions`): nothing for an empty
      query; the positions of the first case-insensitive occurrence when there is one; otherwise
      the positions a greedy in-order scan consumes, but only when it consumes the whole query.
      A non-empty result therefore always has one position per query character. */
  function MatchPositions(text: string, query: string): (r: set<nat>)
    ensures r == {} || |r| == |query|
    ensures forall p :: p in r ==> p < |text|
  {
    if query == [] then {}
    else match FirstMatchFrom(text, query, 0)
      case Some(s) => Range(s, s + |query|)
      case None =>
        var g := Greedy(LowerStr(query), LowerStr(text));
        if |g| == |query| then
          ElemsSize(g);
          ElemsBelow(g, |text|);
          Elems(g)
        else {}
  }

  /** An occurrence is a subsequence, after lower-casing. */
  lemma MatchIsSubsequence(text: string, query: string, s: nat)
    requires MatchesAt(text, query, s)
    ensures IsSubsequence(LowerStr(query), LowerStr(text))
  {
    MatchesAtIffLowerOccurrence(text, query, s);
    OccurrenceIsSubsequence(LowerStr(query), LowerStr(text), s);
  }

  /** The reference reading of `MatchPositions`: for a non-empty query, a hit exists exactly when
      the query is an in-order subsequence of the text, ignoring ASCII case. */
  lemma MatchPositionsNonEmptyIff(text: string, query: string)
    ensures query == [] ==> MatchPositions(text, query) == {}
    ensures query != [] ==>
      (MatchPositions(text, query) != {} <==> IsSubsequence(LowerStr(query), LowerStr(text)))
  {
    if query != [] {
      GreedyIffSubsequence(LowerStr(query), LowerStr(text));
      var f := FirstMatchFrom(text, query, 0);
      if f.Some? {
        MatchIsSubsequence(text, query, f.value);
        assert f.value in Range(f.value, f.value + |query|);
      } else {
        var g := Greedy(LowerStr(query), LowerStr(text));
        if |g| == |query| {
          assert g[0] in Elems(g);
        }
      }
    }
  }

  /** A start that matches, with no match before it, is the first match. */
  lemma FirstMatchIs(text: string, query: string, start: nat)
    requires MatchesAt(text, query, start)
    requires forall j :: 0 <= j < start ==> !MatchesAt(text, query, j)
    ensures FirstMatchFrom(text, query, 0) == Some(start)
  {
  }

  /** An occurrence wins over the subsequence scan, and it is the leftmost one. */
  lemma MatchPositionsOfOccurrence(text: string, query: string, start: nat)
    requires query != []
    requires MatchesAt(text, query, start)
    requires forall j :: 0 <= j < start ==> !MatchesAt(text, query, j)
    ensures MatchPositions(text, query) == Range(start, start + |query|)
  {
    FirstMatchIs(text, query, start);
  }

  /** The window scan of `find_match_positions`: the first start where every query character
      matches. */
  method FirstMatch(text: string, query: string) returns (r: Option<nat>)
    ensures r == FirstMatchFrom(text, query, 0)
  {
    if |query| <= |text| {
      for start := 0 to |text| - |query| + 1
        invariant forall j :: 0 <= j < start ==> !MatchesAt(text, query, j)
      {
        var all := true;
        for off := 0 to |query|
          invariant all <==> forall k :: 0 <= k < off ==> CharsEqual(text[start + k], query[k])
        {
          if !CharsEqual(text[start + off], query[off]) {
            all := false;
          }
        }
        if all {
          FirstMatchIs(text, query, start);
          return Some(start);
        }
      }
    }
    var f := FirstMatchFrom(text, query, 0);
    assert f.Some? ==> MatchesAt(text, query, f.value);
    return None;
  }

  /** The greedy pass over the original strings, comparing with `chars_equal`. */
  function ScanFrom(text: string, query: string, qi: nat, i: nat): seq<nat>
    requires qi <= |query| && i <= |text|
    decreases |text| - i
  {
    if i == |text| then []
    else if qi < |query| && CharsEqual(text[i], query[qi]) then [i] + ScanFrom(text, query, qi + 1, i + 1)
    else ScanFrom(text, query, qi, i + 1)
  }

  /** Comparing with `chars_equal` is comparing the lower-cased characters, so the pass over the
      original strings consumes the same positions as the greedy scan of the lower-cased ones. */
  lemma {:induction false} ScanIsGreedy(text: string, query: string, qi: nat, i: nat)
    requires qi <= |query| && i <= |text|
    ensures ScanFrom(text, query, qi, i) == GreedyFrom(LowerStr(query), LowerStr(text), qi, i)
    decreases |text| - i
  {
    if i < |text| {
      LowerStrAt(query);
      LowerStrAt(text);
      if qi < |query| {
        CharsEqualIffLower(text[i], query[qi]);
        ScanIsGreedy(text, query, qi + 1, i + 1);
      }
      ScanIsGreedy(text, query, qi, i + 1);
    }
  }

  /** The greedy pass of `find_match_positions`: the positions consumed and how much of the query
      they spell. */
  method GreedyScan(text: string, query: string) returns (out: set<nat>, qi: nat)
    ensures qi == |Greedy(LowerStr(query), LowerStr(text))|
    ensures out == Elems(Greedy(LowerStr(query), LowerStr(text)))
  {
    ghost var g := ScanFrom(text, query, 0, 0);
    qi := 0;
    ghost var taken: seq<nat> := [];
    out := {};
    for i := 0 to |text|
      invariant qi <= |query| && qi == |taken|
      invariant g == taken + ScanFrom(text, query, qi, i)
      invariant out == Elems(taken)
    {
      if qi < |query| && CharsEqual(text[i], query[qi]) {
        assert g == (taken + [i]) + ScanFrom(text, query, qi + 1, i + 1);
        ElemsSnoc(taken, i);
        out := out + {i};
        taken := taken + [i];
        qi := qi + 1;
      }
    }
    assert taken == g by {
      assert ScanFrom(text, query, qi, |text|) == [];
    }
    ScanIsGreedy(text, query, 0, 0);
  }

  /** `find_match_positions` as written: the window scan, then the greedy pass. */
  method FindMatchPositions(text: string, query: string) returns (out: set<nat>)
    ensures out == MatchPositions(text, query)
  {
    if query == [] {
      return {};
    }
    var first := FirstMatch(text, query);
    if first.Some? {
      return Range(first.value, first.value + |query|);
    }
    var qi;
    out, qi := GreedyScan(text, query);
    if qi != |query| {
      out := {};
    }
  }

  // ---------------------------------------------------------------------------------------
  // Highlight terms
  // ---------------------------------------------------------------------------------------

  function NonEmpty(s: string): (r: Option<string>)
    ensures r.Some? <==> s != []
    ensures r.Some? ==> r.value == s
  {
    if s == [] then None else Some(s)
  }

  /** The anchor stripping of `highlight_terms`: one leading '^', then one trailing '$'. It keeps
      the same core as the query compiler's `split_anchor`. */
  function StripAnchors(t: string): (r: string)
    ensures r == SplitAnchor(t).core
  {
    var t1 := if |t| > 0 && t[0] == '^' then t[1..] else t;
    var t2 := if |t1| > 0 && t1[|t1| - 1] == '$' then t1[..|t1| - 1] else t1;
    var a := SplitAnchor(t);
    assert t2 == a.core by {
      assert t == Reanchor(a);
      if a.start && a.end {
        assert t == "^" + a.core + "$";
        assert t1 == a.core + "$";
      } else if a.start {
        assert t == "^" + a.core;
        assert t1 == a.core;
      } else if a.end {
        assert t == a.core + "$";
      }
    }
    t2
  }

  /** A term's core is a piece of the term. */
  lemma CoreOccurs(t: string)
    ensures Contains(t, SplitAnchor(t).core)
  {
    var a := SplitAnchor(t);
    var i := if a.start then 1 else 0;
    assert t == Reanchor(a);
    assert t[i..i + |a.core|] == a.core;
    assert OccursAt(t, a.core, i);
    ContainsIffOccurs(t, a.core);
  }

  /** What one query token contributes to highlighting (the body of `highlight_terms`' loop):
      exclusions contribute nothing; an exact marker is dropped; in regex mode a non-exact token is
      used as it is; otherwise one leading '^' and one trailing '$' are stripped. An empty
      remainder contributes nothing. */
  function HighlightTerm(token: string, useRegex: bool): (r: Option<string>)
    ensures r.Some? ==> r.value != [] && Contains(token, r.value)
    ensures |token| > 0 && token[0] == '!' ==> r == None
  {
    if |token| > 0 && token[0] == '!' then None
    else
      var exact := |token| > 0 && token[0] == '\'';
      var k := if exact then 1 else 0;
      var t := token[k..];
      SuffixContained(token, k);
      if useRegex && !exact then NonEmpty(t)
      else
        StrippedContained(token, t);
        NonEmpty(StripAnchors(t))
  }

  lemma SuffixContained(s: string, k: nat)
    requires k <= |s|
    ensures Contains(s, s[k..])
  {
    assert OccursAt(s, s[k..], k);
    ContainsIffOccurs(s, s[k..]);
  }

  lemma StrippedContained(token: string, t: string)
    requires Contains(token, t)
    ensures Contains(token, StripAnchors(t))
  {
    CoreOccurs(t);
    ContainsTransitive(token, t, StripAnchors(t));
  }

  lemma ContainsTransitive(a: string, b: string, c: string)
    requires Contains(a, b) && Contains(b, c)
    ensures Contains(a, c)
  {
    ContainsIffOccurs(a, b);
    ContainsIffOccurs(b, c);
    var i :| OccursAt(a, b, i);
    var j :| OccursAt(b, c, j);
    forall k | 0 <= k < |c| ensures a[i + j + k] == c[k] {
      assert a[i + j + k] == a[i..i + |b|][j + k];
      assert c[k] == b[j..j + |c|][k];
    }
    assert a[i + j..i + j + |c|] == c;
    assert OccursAt(a, c, i + j);
    ContainsIffOccurs(a, c);
  }

  /** Partner of `HighlightTerm`: the token's highlight term is read off the query compiler's own
      classification of it. Exclusions and lone markers give none; exact terms, and include terms
      outside regex mode, give their core with the anchors split off; include terms in regex mode
      give themselves. */
  lemma HighlightTermClassified(token: string, useRegex: bool)
    ensures HighlightTerm(token, useRegex) ==
      match Classify(token)
      case Ignored => None
      case Exclude(_) => None
      case Exact(x) => NonEmpty(SplitAnchor(x).core)
      case Include(x) => if useRegex then NonEmpty(x) else NonEmpty(SplitAnchor(x).core)
  {
    var c := Classify(token);
    var h := HighlightTerm(token, useRegex);
    if |token| > 0 && token[0] == '!' {
      assert h == None;
      assert c.Ignored? || c.Exclude?;
    } else if |token| > 0 && token[0] == '\'' {
      assert h == NonEmpty(StripAnchors(token[1..]));
      if |token| == 1 {
        assert c.Ignored?;
        assert token[1..] == [];
      } else {
        assert c == Exact(token[1..]);
      }
    } else {
      assert c == Include(token);
      assert h == if useRegex then NonEmpty(token) else NonEmpty(StripAnchors(token));
    }
  }

  function HighlightTermsOf(toks: seq<string>, useRegex: bool): (r: seq<string>)
    ensures |r| <= |toks|
    ensures [] !in r
  {
    if toks == [] then []
    else
      var rest := HighlightTermsOf(toks[1..], useRegex);
      var h := HighlightTerm(toks[0], useRegex);
      if h.Some? then [h.value] + rest else rest
  }

  /** `highlight_terms` (and, with `useRegex` false, the prototype's `_highlight_terms`). */
  function HighlightTerms(query: string, useRegex: bool): (r: seq<string>)
    ensures [] !in r
  {
    HighlightTermsOf(SplitWhitespace(query), useRegex)
  }

  /** A blank query has no highlight terms. */
  lemma BlankQueryHasNoTerms(query: string, useRegex: bool)
    requires Trim(query) == []
    ensures HighlightTerms(query, useRegex) == []
  {
    TrimEmptyIffNoTokens(query);
  }

  // ---------------------------------------------------------------------------------------
  // Display paths
  // ---------------------------------------------------------------------------------------

  /** `display_path_with_mode`: the path relative to the root when relative display is preferred
      and the path lies under the root, the full path otherwise. */
  function DisplayPathWithMode(path: Path, root: Path, preferRelative: bool): string {
    if preferRelative && StripPrefix(path, root).Some? then ToString(StripPrefix(path, root).value)
    else ToString(path)
  }

  /** Partner of `DisplayPathWithMode`: the displayed text names the path again, relative to the
      root exactly when it was shown relative. */
  lemma DisplayReadsBack(path: Path, root: Path, preferRelative: bool)
    requires WellFormed(path)
    ensures preferRelative && IsUnder(path, root) ==>
      Join(root, Parse(DisplayPathWithMode(path, root, preferRelative))) == path
    ensures !(preferRelative && IsUnder(path, root)) ==>
      Parse(DisplayPathWithMode(path, root, preferRelative)) == path
  {
    if preferRelative && IsUnder(path, root) {
      var rel := StripPrefix(path, root).value;
      assert WellFormed(rel) by {
        forall i | 0 <= i < |rel.parts| ensures ValidPart(rel.parts[i]) {
          assert rel.parts[i] == path.parts[|root.parts| + i];
        }
      }
      ParseToString(rel);
      StripThenJoin(path, root);
    } else {
      ParseToString(path);
    }
  }

  /** `_display_path` of the prototype: both sides are resolved first, and the root itself shows
      as "."; a path outside the root shows unresolved. */
  function DisplayPathPrototype(fs: FileSystem, path: Path, root: Path): string {
    match StripPrefix(Canon(fs, path), Canon(fs, root))
    case Some(rel) => if rel.parts == [] then "." else ToString(rel)
    case None => ToString(path)
  }

  /** Partner of `DisplayPathPrototype`: a relative display, joined to the resolved root, is the
      resolved path (the "." of the root included). */
  lemma DisplayPrototypeReadsBack(fs: FileSystem, path: Path, root: Path)
    requires WellFormed(Canon(fs, path))
    requires IsUnder(Canon(fs, path), Canon(fs, root))
    ensures Join(Canon(fs, root), Parse(DisplayPathPrototype(fs, path, root))) == Canon(fs, path)
  {
    var c := Canon(fs, path);
    var rel := StripPrefix(c, Canon(fs, root)).value;
    StripThenJoin(c, Canon(fs, root));
    if rel.parts == [] {
      assert SegLen(".") == 1;
      assert Segments(".") == [];
    } else {
      assert WellFormed(rel) by {
        forall i | 0 <= i < |rel.parts| ensures ValidPart(rel.parts[i]) {
          assert rel.parts[i] == c.parts[|Canon(fs, root).parts| + i];
        }
      }
      ParseToString(rel);
    }
  }

  lemma {:induction false} JoinEndsWithLast(parts: seq<string>)
    requires parts != []
    ensures EndsWith(JoinWith(parts, "/"), parts[|parts| - 1])
    decreases |parts|
  {
    if |parts| > 1 {
      JoinEndsWithLast(parts[1..]);
      var j := JoinWith(parts[1..], "/");
      var x := parts[0] + "/" + j;
      assert x[|x| - |parts[|parts| - 1]|..] == j[|j| - |parts[|parts| - 1]|..];
    }
  }

  /** A file name's characters sit at the end of a display that ends with that name. */
  lemma DisplayEndsWithName(path: Path, root: Path, preferRelative: bool)
    requires |path.parts| > (if preferRelative && IsUnder(path, root) then |root.parts| else 0)
    ensures EndsWith(DisplayPathWithMode(path, root, preferRelative), FileName(path))
  {
    var shown := if preferRelative && IsUnder(path, root) then StripPrefix(path, root).value else path;
    assert shown.parts[|shown.parts| - 1] == FileName(path);
    JoinEndsWithLast(shown.parts);
    var d := DisplayPathWithMode(path, root, preferRelative);
    var j := JoinWith(shown.parts, "/");
    assert d == (if shown.absolute then "/" else "") + j;
    assert d[|d| - |FileName(path)|..] == j[|j| - |FileName(path)|..];
  }

  // ---------------------------------------------------------------------------------------
  // Positions for a whole row
  // ---------------------------------------------------------------------------------------

  function Shift(s: set<nat>, d: nat): (r: set<nat>)
    ensures forall p :: p in s <==> p + d in r
    ensures forall q :: q in r ==> q >= d
  {
    set p | p in s :: p + d
  }

  /** One term's positions in the display: its file-name hits, moved to where the file name
      starts in the display, or, when the file name has none, its hits in the whole display. */
  function TermPositions(display: string, name: string, start: nat, term: string,
                         find: (string, string) -> set<nat>): (r: set<nat>)
    ensures r == {} <==> find(name, term) == {} && find(display, term) == {}
  {
    var hits := find(name, term);
    if hits != {} then
      var p :| p in hits;
      assert p + start in Shift(hits, start);
      Shift(hits, start)
    else find(display, term)
  }

  /** The loop over the terms: the union of every term's positions. */
  function PositionsOf(display: string, name: string, start: nat, terms: seq<string>,
                       find: (string, string) -> set<nat>): (r: set<nat>)
    ensures forall p :: p in r <==>
      exists i :: 0 <= i < |terms| && p in TermPositions(display, name, start, terms[i], find)
    decreases |terms|
  {
    if terms == [] then {}
    else
      var rest := PositionsOf(display, name, start, terms[1..], find);
      var r := TermPositions(display, name, start, terms[0], find) + rest;
      assert forall i :: 0 < i < |terms| ==> terms[i] == terms[1..][i - 1];
      r
  }

  /** A row has no positions exactly when no term hits its file name or its display. */
  lemma {:induction false} PositionsEmptyIff(display: string, name: string, start: nat,
                                             terms: seq<string>, find: (string, string) -> set<nat>)
    ensures PositionsOf(display, name, start, terms, find) == {} <==>
      forall i :: 0 <= i < |terms| ==> find(name, terms[i]) == {} && find(display, terms[i]) == {}
  {
    var r := PositionsOf(display, name, start, terms, find);
    if r != {} {
      var p :| p in r;
      var i :| 0 <= i < |terms| && p in TermPositions(display, name, start, terms[i], find);
      assert !(find(name, terms[i]) == {} && find(display, terms[i]) == {});
    } else {
      forall i | 0 <= i < |terms|
        ensures TermPositions(display, name, start, terms[i], find) == {}
      {
      }
    }
  }

  /** `start` in `match_positions_for_path`: the display length minus the file name length,
      saturating at zero. */
  function NameStart(display: string, name: string): (n: nat)
    ensures EndsWith(display, name) ==> n + |name| == |display|
  {
    if |display| >= |name| then |display| - |name| else 0
  }

  /** Positions of plain (non-regex) hits within a text. */
  function PlainFind(): (string, string) -> set<nat> {
    (text: string, query: string) => MatchPositions(text, query)
  }

  /** `match_positions_for_path`. Regular-expression hits come from `regexPositions`, a stand-in for
      `find_regex_match_positions` over the regex engine. */
  function MatchPositionsForPath(path: Path, root: Path, query: string, preferRelative: bool,
                                 useRegex: bool, regexPositions: (string, string) -> set<nat>): set<nat>
  {
    var display := DisplayPathWithMode(path, root, preferRelative);
    var name := FileName(path);
    var find := if useRegex then regexPositions else PlainFind();
    PositionsOf(display, name, NameStart(display, name), HighlightTerms(query, useRegex), find)
  }

  /** Shifted file-name hits land on the same characters in the display: when the display ends
      with the file name, position `start + p` of the display holds character `p` of the name. */
  lemma ShiftedHitsAlign(path: Path, root: Path, preferRelative: bool, p: nat)
    requires |path.parts| > (if preferRelative && IsUnder(path, root) then |root.parts| else 0)
    requires p < |FileName(path)|
    ensures var display := DisplayPathWithMode(path, root, preferRelative);
      && NameStart(display, FileName(path)) + p < |display|
      && display[NameStart(display, FileName(path)) + p] == FileName(path)[p]
  {
    var display := DisplayPathWithMode(path, root, preferRelative);
    var name := FileName(path);
    DisplayEndsWithName(path, root, preferRelative);
    assert display[|display| - |name|..][p] == name[p];
  }

  // ---------------------------------------------------------------------------------------
  // Visible matches
  // ---------------------------------------------------------------------------------------

  /** `has_visible_match`: a blank query, or one without highlight terms (exclusions only), is
      always visible; otherwise some plain position must be highlighted. */
  function HasVisibleMatch(path: Path, root: Path, query: string, preferRelative: bool): bool {
    if Trim(query) == [] then true
    else if HighlightTerms(query, false) == [] then true
    else MatchPositionsForPath(path, root, query, preferRelative, false, PlainFind()) != {}
  }

  /** The loop of the prototype's `has_visible_match`. */
  function AnyTermVisible(display: string, name: string, terms: seq<string>): (b: bool)
    ensures b <==> exists i ::
      && 0 <= i < |terms|
      && (MatchPositions(name, terms[i]) != {} || MatchPositions(display, terms[i]) != {})
    decreases |terms|
  {
    if terms == [] then false
    else if MatchPositions(name, terms[0]) != {} then true
    else if MatchPositions(display, terms[0]) != {} then true
    else
      assert forall i :: 0 < i < |terms| ==> terms[i] == terms[1..][i - 1];
      AnyTermVisible(display, name, terms[1..])
  }

  /** The prototype's `has_visible_match`. */
  function HasVisibleMatchPrototype(fs: FileSystem, path: Path, root: Path, query: string): bool {
    var terms := HighlightTerms(query, false);
    if terms == [] then true
    else AnyTermVisible(DisplayPathPrototype(fs, path, root), FileName(path), terms)
  }

  /** What `has_visible_match` decides: there are no highlight terms, or some term hits the file
      name or the display. */
  lemma VisibleMatchMeaning(path: Path, root: Path, query: string, preferRelative: bool)
    ensures var terms := HighlightTerms(query, false);
      var display := DisplayPathWithMode(path, root, preferRelative);
      HasVisibleMatch(path, root, query, preferRelative) <==>
        || terms == []
        || exists i ::
          && 0 <= i < |terms|
          && (MatchPositions(FileName(path), terms[i]) != {} || MatchPositions(display, terms[i]) != {})
  {
    var terms := HighlightTerms(query, false);
    var display := DisplayPathWithMode(path, root, preferRelative);
    var name := FileName(path);
    if Trim(query) == [] {
      BlankQueryHasNoTerms(query, false);
    }
    PositionsEmptyIff(display, name, NameStart(display, name), terms, PlainFind());
  }

  /** The two implementations agree whenever they display the path the same way. */
  lemma VisibleMatchAgrees(fs: FileSystem, path: Path, root: Path, query: string)
    requires DisplayPathWithMode(path, root, true) == DisplayPathPrototype(fs, path, root)
    ensures HasVisibleMatch(path, root, query, true) == HasVisibleMatchPrototype(fs, path, root, query)
  {
    VisibleMatchMeaning(path, root, query, true);
  }

  /** The highlighted positions of the prototype's `format_result_html`. */
  function FormatResultPositions(fs: FileSystem, path: Path, root: Path, query: string): set<nat> {
    var display := DisplayPathPrototype(fs, path, root);
    var name := FileName(path);
    PositionsOf(display, name, NameStart(display, name), HighlightTerms(query, false), PlainFind())
  }

  /** In the prototype, a row with highlight terms is visible exactly when its HTML highlights
      something. */
  lemma HighlightedIffVisible(fs: FileSystem, path: Path, root: Path, query: string)
    requires HighlightTerms(query, false) != []
    ensures FormatResultPositions(fs, path, root, query) != {} <==> HasVisibleMatchPrototype(fs, path, root, query)
  {
    var display := DisplayPathPrototype(fs, path, root);
    var name := FileName(path);
    PositionsEmptyIff(display, name, NameStart(display, name), HighlightTerms(query, false), PlainFind());
  }

  // ---------------------------------------------------------------------------------------
  // Truncation
  // ---------------------------------------------------------------------------------------

  /** `truncate_chars`: text within the limit is kept; longer text keeps its first `max - 3`
      characters (none when `max` < 3) followed by "...". */
  function TruncateChars(text: string, max: nat): (r: string)
    ensures |text| <= max ==> r == text
    ensures |text| > max ==> EndsWith(r, "...") && |r| == (if max >= 3 then max else 3)
    ensures |text| > max ==> StartsWith(text, r[..|r| - 3])
  {
    if |text| <= max then text
    else
      var keep := if max >= 3 then max - 3 else 0;
      var r := text[..keep] + "...";
      assert r[|r| - 3..] == "...";
      assert r[..|r| - 3] == text[..keep];
      r
  }
}
