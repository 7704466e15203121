/** Deciding whether one path satisfies a compiled query: anchored literals for exact and exclude
    terms, fuzzy (substring or subsequence) matching with adjacent-character anchor checks for
    include terms, and the combination in `matches_spec`. Models rust/src/search.rs and the same
    functions of the Python prototype's search module. */
module Matcher {
  import opened Text
  import opened Paths
  import opened Query
  import opened Subsequences

  /** A regular-expression engine, left abstract: whether a pattern compiles, and whether the
      compiled, case-insensitive pattern matches somewhere in a text. */
  datatype RegexEngine = RegexEngine(compiles: string -> bool, search: (string, string) -> bool)

  lemma LowerIdempotent(s: string)
    ensures LowerStr(LowerStr(s)) == LowerStr(s)
  {
  }

  lemma ContainsIsSubsequence(q: string, t: string)
    ensures Contains(t, q) ==> IsSubsequence(q, t)
  {
    ContainsIffOccurs(t, q);
    if Contains(t, q) {
      var i :| OccursAt(t, q, i);
      OccurrenceIsSubsequence(q, t, i);
    }
  }

  /** `is_fuzzy_match`: after lower-casing both, the query is a substring of the text or an
      in-order subsequence of it. */
  function IsFuzzyMatch(q: string, t: string): bool {
    var ql := LowerStr(q);
    var tl := LowerStr(t);
    Contains(tl, ql) || |Greedy(ql, tl)| == |ql|
  }

  /** The substring test is subsumed: a fuzzy match is exactly an in-order subsequence. */
  lemma FuzzyMatchIffSubsequence(q: string, t: string)
    ensures IsFuzzyMatch(q, t) <==> IsSubsequence(LowerStr(q), LowerStr(t))
  {
    GreedyIffSubsequence(LowerStr(q), LowerStr(t));
    ContainsIsSubsequence(LowerStr(q), LowerStr(t));
  }

  /** `matches_anchored_literal`: the core after `split_anchor` must be non-empty and is compared
      literally: equality with both anchors, prefix with `^`, suffix with `$`, else substring. */
  function MatchesAnchoredLiteral(term: string, text: string): bool {
    var a := SplitAnchor(term);
    if a.core == [] then false
    else if a.start && a.end then text == a.core
    else if a.start then StartsWith(text, a.core)
    else if a.end then EndsWith(text, a.core)
    else Contains(text, a.core)
  }

  /** The core occurs in `text` at `i`, and each anchor pins that occurrence to its end of the text. */
  predicate AnchoredOccurrence(a: Anchored, text: string, i: int) {
    OccursAt(text, a.core, i) && (a.start ==> i == 0) && (a.end ==> i + |a.core| == |text|)
  }

  /** One rule for all four anchor cases: a literal matches exactly when its non-empty core occurs
      in the text at a position its anchors allow. */
  lemma AnchoredLiteralIffOccurrence(term: string, text: string)
    ensures MatchesAnchoredLiteral(term, text)
        <==> SplitAnchor(term).core != [] && exists i :: AnchoredOccurrence(SplitAnchor(term), text, i)
  {
    var a := SplitAnchor(term);
    if a.core != [] {
      if MatchesAnchoredLiteral(term, text) {
        if a.start && a.end {
          assert text[0..|a.core|] == text;
          assert AnchoredOccurrence(a, text, 0);
        } else if a.start {
          assert AnchoredOccurrence(a, text, 0);
        } else if a.end {
          assert AnchoredOccurrence(a, text, |text| - |a.core|);
        } else {
          ContainsIffOccurs(text, a.core);
          var i :| OccursAt(text, a.core, i);
          assert AnchoredOccurrence(a, text, i);
        }
      }
      if i :| AnchoredOccurrence(a, text, i) {
        if a.start && a.end {
          assert text[0..|text|] == text;
        } else if !a.start && !a.end {
          ContainsIffOccurs(text, a.core);
        }
      }
    }
  }

  /** `matches_exact_term` / `matches_exclusion_term` (identical in both implementations): the
      lower-cased term as an anchored literal, against the name or the full path. */
  function MatchesLiteralTerm(term: string, name: string, full: string): bool {
    var t := LowerStr(term);
    MatchesAnchoredLiteral(t, name) || MatchesAnchoredLiteral(t, full)
  }

  /** The non-regex branch of `matches_include_term`. */
  function MatchesFuzzyInclude(term: string, name: string, full: string): bool {
    var a := SplitAnchor(LowerStr(term));
    if a.core == [] then false
    else if a.start && !(StartsWith(name, [a.core[0]]) || StartsWith(full, [a.core[0]])) then false
    else if a.end && !(EndsWith(name, [a.core[|a.core| - 1]]) || EndsWith(full, [a.core[|a.core| - 1]])) then false
    else IsFuzzyMatch(a.core, name) || IsFuzzyMatch(a.core, full)
  }

  /** Some one of `name` and `full` begins with `c`. */
  predicate EitherStartsWith(name: string, full: string, c: char) {
    (|name| > 0 && name[0] == c) || (|full| > 0 && full[0] == c)
  }

  /** Some one of `name` and `full` ends with `c`. */
  predicate EitherEndsWith(name: string, full: string, c: char) {
    (|name| > 0 && name[|name| - 1] == c) || (|full| > 0 && full[|full| - 1] == c)
  }

  lemma SingleCharAffixes(s: string, c: char)
    ensures StartsWith(s, [c]) <==> |s| > 0 && s[0] == c
    ensures EndsWith(s, [c]) <==> |s| > 0 && s[|s| - 1] == c
  {
    if |s| > 0 {
      assert s[..1] == [s[0]];
      assert s[|s| - 1..] == [s[|s| - 1]];
    }
  }

  lemma LowerTwice(c: char)
    ensures Lower(Lower(c)) == Lower(c)
  {
  }

  /** Lower-casing leaves a string of lower-case-stable characters alone. */
  lemma {:induction false} LowerStrFixed(s: string)
    requires forall i :: 0 <= i < |s| ==> Lower(s[i]) == s[i]
    ensures LowerStr(s) == s
    decreases |s|
  {
    if s != [] {
      assert forall i :: 0 <= i < |s[1..]| ==> Lower(s[1..][i]) == s[1..][i] by {
        forall i | 0 <= i < |s[1..]| ensures Lower(s[1..][i]) == s[1..][i] {
          assert s[1..][i] == s[i + 1];
        }
      }
      LowerStrFixed(s[1..]);
      assert s == [s[0]] + s[1..];
    }
  }

  /** A slice of a lower-cased string is already lower case. */
  lemma LoweredSliceIsLower(s: string, lo: nat, hi: nat)
    requires lo <= hi <= |s|
    ensures LowerStr(LowerStr(s)[lo..hi]) == LowerStr(s)[lo..hi]
  {
    var x := LowerStr(s)[lo..hi];
    LowerStrAt(s);
    forall k | 0 <= k < |x|
      ensures Lower(x[k]) == x[k]
    {
      assert x[k] == Lower(s[lo + k]);
      LowerTwice(s[lo + k]);
    }
    LowerStrFixed(x);
  }

  /** A non-regex include term only looks at the characters next to its anchors: `^` demands that
      name or path begin with the core's first character and `$` that one end with its last; the
      whole core then only has to be an in-order subsequence of the lower-cased name or path. */
  lemma FuzzyIncludeMeaning(term: string, name: string, full: string)
    ensures var a := SplitAnchor(LowerStr(term));
      MatchesFuzzyInclude(term, name, full) <==>
        && a.core != []
        && (a.start ==> EitherStartsWith(name, full, a.core[0]))
        && (a.end ==> EitherEndsWith(name, full, a.core[|a.core| - 1]))
        && (IsSubsequence(a.core, LowerStr(name)) || IsSubsequence(a.core, LowerStr(full)))
  {
    var a := SplitAnchor(LowerStr(term));
    var lo := if a.start then 1 else 0;
    assert a.core == LowerStr(term)[lo..lo + |a.core|];
    LoweredSliceIsLower(term, lo, lo + |a.core|);
    FuzzyMatchIffSubsequence(a.core, name);
    FuzzyMatchIffSubsequence(a.core, full);
    if a.core != [] {
      SingleCharAffixes(name, a.core[0]);
      SingleCharAffixes(full, a.core[0]);
      SingleCharAffixes(name, a.core[|a.core| - 1]);
      SingleCharAffixes(full, a.core[|a.core| - 1]);
    }
  }

  /** `matches_include_term`: in regex mode a pattern that does not compile matches nothing (a
      per-term `false`, not a query error); otherwise the pattern is searched in name or path. */
  function MatchesIncludeTerm(term: string, name: string, full: string, useRegex: bool, re: RegexEngine): (b: bool)
    ensures useRegex && !re.compiles(term) ==> !b
    ensures useRegex && re.compiles(term) ==> (b <==> re.search(term, name) || re.search(term, full))
    ensures !useRegex ==> b == MatchesFuzzyInclude(term, name, full)
  {
    if useRegex then re.compiles(term) && (re.search(term, name) || re.search(term, full))
    else MatchesFuzzyInclude(term, name, full)
  }

  /** The lower-cased file name and full path every term is matched against. */
  function NameOf(p: Path): string { LowerStr(FileName(p)) }
  function FullOf(p: Path): string { LowerStr(ToString(p)) }

  predicate NoExclusionMatches(terms: seq<string>, name: string, full: string) {
    forall i :: 0 <= i < |terms| ==> !MatchesLiteralTerm(terms[i], name, full)
  }

  predicate AllExactsMatch(terms: seq<string>, name: string, full: string) {
    forall i :: 0 <= i < |terms| ==> MatchesLiteralTerm(terms[i], name, full)
  }

  predicate AllIncludesMatch(terms: seq<string>, name: string, full: string, useRegex: bool, re: RegexEngine) {
    forall i :: 0 <= i < |terms| ==> MatchesIncludeTerm(terms[i], name, full, useRegex, re)
  }

  /** What `matches_spec` decides: no exclude term matches, and every exact and every include
      term does, each against the lower-cased file name and full path. */
  predicate Accepts(spec: QuerySpec, p: Path, useRegex: bool, re: RegexEngine) {
    var name := NameOf(p);
    var full := FullOf(p);
    && NoExclusionMatches(spec.excludes, name, full)
    && AllExactsMatch(spec.exacts, name, full)
    && AllIncludesMatch(spec.includes, name, full, useRegex, re)
  }

  /** The exclusion loop of `matches_spec`: stops at the first exclude term that matches. */
  method ScanExclusions(terms: seq<string>, name: string, full: string) returns (clear: bool)
    ensures clear <==> NoExclusionMatches(terms, name, full)
  {
    for i := 0 to |terms|
      invariant forall j :: 0 <= j < i ==> !MatchesLiteralTerm(terms[j], name, full)
    {
      if MatchesLiteralTerm(terms[i], name, full) {
        return false;
      }
    }
    return true;
  }

  /** The exact-term loop: stops at the first exact term that does not match. */
  method ScanExacts(terms: seq<string>, name: string, full: string) returns (all: bool)
    ensures all <==> AllExactsMatch(terms, name, full)
  {
    for i := 0 to |terms|
      invariant forall j :: 0 <= j < i ==> MatchesLiteralTerm(terms[j], name, full)
    {
      if !MatchesLiteralTerm(terms[i], name, full) {
        return false;
      }
    }
    return true;
  }

  /** The include-term loop: stops at the first include term that does not match. */
  method ScanIncludes(terms: seq<string>, name: string, full: string, useRegex: bool, re: RegexEngine)
    returns (all: bool)
    ensures all <==> AllIncludesMatch(terms, name, full, useRegex, re)
  {
    for i := 0 to |terms|
      invariant forall j :: 0 <= j < i ==> MatchesIncludeTerm(terms[j], name, full, useRegex, re)
    {
      if !MatchesIncludeTerm(terms[i], name, full, useRegex, re) {
        return false;
      }
    }
    return true;
  }

  /** `matches_spec` / `_matches_spec`: exclusions first, then exact terms, then include terms,
      each loop returning early. */
  method MatchesSpec(spec: QuerySpec, p: Path, useRegex: bool, re: RegexEngine) returns (b: bool)
    ensures b <==> Accepts(spec, p, useRegex, re)
  {
    var name := NameOf(p);
    var full := FullOf(p);
    var clear := ScanExclusions(spec.excludes, name, full);
    if !clear {
      return false;
    }
    var exacts := ScanExacts(spec.exacts, name, full);
    if !exacts {
      return false;
    }
    b := ScanIncludes(spec.includes, name, full, useRegex, re);
  }

  /** Adding terms to a query can only shrink the set of accepted paths. */
  lemma AcceptsMonotone(spec: QuerySpec, more: QuerySpec, p: Path, useRegex: bool, re: RegexEngine)
    requires Accepts(Concat(spec, more), p, useRegex, re)
    ensures Accepts(spec, p, useRegex, re)
  {
    var c := Concat(spec, more);
    assert forall i :: 0 <= i < |spec.excludes| ==> c.excludes[i] == spec.excludes[i];
    assert forall i :: 0 <= i < |spec.exacts| ==> c.exacts[i] == spec.exacts[i];
    assert forall i :: 0 <= i < |spec.includes| ==> c.includes[i] == spec.includes[i];
  }

  /** The empty query accepts every path. */
  lemma EmptySpecAcceptsAll(p: Path, useRegex: bool, re: RegexEngine)
    ensures Accepts(Empty, p, useRegex, re)
  {
  }
}
