/** Ranking the paths a query accepts: the early exits of `search_entries`, the score bonuses, a
    stable sort by descending score and truncation to `limit`. The base fuzzy score comes from an
    external scorer and is a parameter here. Models `search_entries` of rust/src/search.rs and of
    the Python prototype's search module. */
module Ranking {
  import opened Wrappers
  import opened Text
  import opened Seqs
  import opened Paths
  import opened Query
  import opened Matcher

  datatype Hit = Hit(path: Path, score: int)

  /** The external relevance scorer (the skim matcher with its fallback in the Rust finder,
      rapidfuzz or difflib in the Python prototype), from a scoring query and a path text. */
  type BaseScore = (string, string) -> int

  /** `fallback_score`, the Rust finder's score when the skim matcher finds no match: nothing for
      an empty query; otherwise 25 when the lower-cased query occurs in the lower-cased text, 30
      more when it begins it, plus the length of the shorter of the two. */
  function FallbackScore(query: string, text: string): (r: nat)
    ensures query == [] ==> r == 0
    ensures query != [] ==> Min(|query|, |text|) <= r <= 55 + Min(|query|, |text|)
    ensures query != [] && !Contains(LowerStr(text), LowerStr(query)) ==> r == Min(|query|, |text|)
    ensures query != [] && StartsWith(LowerStr(text), LowerStr(query)) ==> r == 55 + Min(|query|, |text|)
  {
    if query == [] then 0
    else
      var q := LowerStr(query);
      var t := LowerStr(text);
      (if Contains(t, q) then 25 else 0) + (if StartsWith(t, q) then 30 else 0) + Min(|q|, |t|)
  }

  /** Among texts of one length, a text that begins with the query gets the highest fallback
      score, and one that does not contain it the lowest. */
  lemma FallbackPrefersPrefix(query: string, text: string, other: string)
    requires query != [] && |text| == |other|
    ensures StartsWith(LowerStr(text), LowerStr(query)) ==> FallbackScore(query, other) <= FallbackScore(query, text)
    ensures !Contains(LowerStr(text), LowerStr(query)) ==> FallbackScore(query, text) <= FallbackScore(query, other)
  {
  }

  /** The Rust finder's base score of a path text: the skim matcher's score (`skim`, an external
      scorer that may find no match), else the fallback score. */
  function RustBase(skim: (string, string) -> Option<int>, q: string, full: string): (r: int)
    ensures skim(full, q).Some? ==> r == skim(full, q).value
    ensures skim(full, q).None? ==> r == FallbackScore(q, full) && r >= 0
  {
    match skim(full, q)
    case Some(s) => s
    case None => FallbackScore(q, full)
  }

  // ---------------------------------------------------------------------------------------
  // Stable sort by descending score (`sort_by` on `b.1.partial_cmp(&a.1)`, and Python's
  // `sort(key=..., reverse=True)`, both stable)
  // ---------------------------------------------------------------------------------------

  predicate Sorted(s: seq<Hit>) {
    forall i, j :: 0 <= i < j < |s| ==> s[i].score >= s[j].score
  }

  /** A hit scoring at least as high as every hit of a sorted list may be put in front of it. */
  lemma SortedCons(h: Hit, rest: seq<Hit>)
    requires Sorted(rest) && forall x :: x in rest ==> x.score <= h.score
    ensures Sorted([h] + rest)
  {
    forall i, j | 0 <= i < j < |[h] + rest| ensures ([h] + rest)[i].score >= ([h] + rest)[j].score {
      assert ([h] + rest)[j] == rest[j - 1];
      if i > 0 { assert ([h] + rest)[i] == rest[i - 1]; }
    }
  }

  /** Inserts `x` after every element scoring at least as high. */
  function Insert(s: seq<Hit>, x: Hit): (r: seq<Hit>)
    ensures |r| == |s| + 1
    ensures multiset(r) == multiset(s) + multiset{x}
  {
    if s == [] then [x]
    else if s[0].score < x.score then [x] + s
    else
      assert s == [s[0]] + s[1..];
      [s[0]] + Insert(s[1..], x)
  }

  lemma {:induction false} InsertBounded(s: seq<Hit>, x: Hit, bound: int)
    requires forall i :: 0 <= i < |s| ==> s[i].score <= bound
    requires x.score <= bound
    ensures forall i :: 0 <= i < |s| + 1 ==> Insert(s, x)[i].score <= bound
    decreases |s|
  {
    if s != [] && s[0].score >= x.score {
      InsertBounded(s[1..], x, bound);
    }
  }

  lemma {:induction false} InsertSorted(s: seq<Hit>, x: Hit)
    requires Sorted(s)
    ensures Sorted(Insert(s, x))
    decreases |s|
  {
    if s != [] && s[0].score >= x.score {
      InsertSorted(s[1..], x);
      InsertBounded(s[1..], x, s[0].score);
    }
  }

  /** Insertion sort, taking the elements in input order. */
  function SortDesc(s: seq<Hit>): (r: seq<Hit>)
    ensures |r| == |s|
    ensures multiset(r) == multiset(s)
    ensures Sorted(r)
  {
    if s == [] then []
    else
      var init := s[..|s| - 1];
      assert s == init + [s[|s| - 1]];
      InsertSorted(SortDesc(init), s[|s| - 1]);
      Insert(SortDesc(init), s[|s| - 1])
  }

  /** The hits scoring exactly `v`, in order. */
  function WithScore(s: seq<Hit>, v: int): seq<Hit> {
    if s == [] then [] else (if s[0].score == v then [s[0]] else []) + WithScore(s[1..], v)
  }

  lemma {:induction false} WithScoreAppend(a: seq<Hit>, b: seq<Hit>, v: int)
    ensures WithScore(a + b, v) == WithScore(a, v) + WithScore(b, v)
    decreases |a|
  {
    if a == [] {
      assert a + b == b;
    } else {
      var head := if a[0].score == v then [a[0]] else [];
      assert (a + b)[0] == a[0];
      assert (a + b)[1..] == a[1..] + b;
      WithScoreAppend(a[1..], b, v);
      calc {
        WithScore(a + b, v);
        head + WithScore(a[1..] + b, v);
        head + (WithScore(a[1..], v) + WithScore(b, v));
        { AppendAssoc(head, WithScore(a[1..], v), WithScore(b, v)); }
        (head + WithScore(a[1..], v)) + WithScore(b, v);
      }
    }
  }

  lemma {:induction false} NoneWithHigherScore(s: seq<Hit>, v: int)
    requires Sorted(s) && s != [] && s[0].score < v
    ensures WithScore(s, v) == []
    decreases |s|
  {
    if |s| > 1 {
      NoneWithHigherScore(s[1..], v);
    }
  }

  lemma {:induction false} InsertStable(s: seq<Hit>, x: Hit, v: int)
    requires Sorted(s)
    ensures WithScore(Insert(s, x), v) == WithScore(s, v) + (if x.score == v then [x] else [])
    decreases |s|
  {
    if s == [] {
    } else if s[0].score < x.score {
      if x.score == v {
        NoneWithHigherScore(s, v);
      }
      assert Insert(s, x) == [x] + s;
      WithScoreAppend([x], s, v);
    } else {
      InsertStable(s[1..], x, v);
      assert Insert(s, x)[1..] == Insert(s[1..], x);
    }
  }

  /** Stability: among hits with equal score the sort keeps input order. */
  lemma {:induction false} SortStable(s: seq<Hit>, v: int)
    ensures WithScore(SortDesc(s), v) == WithScore(s, v)
    decreases |s|
  {
    if s != [] {
      var init := s[..|s| - 1];
      var x := s[|s| - 1];
      var tail := if x.score == v then [x] else [];
      assert s == init + [x];
      assert SortDesc(s) == Insert(SortDesc(init), x);
      SortStable(init, v);
      InsertStable(SortDesc(init), x, v);
      WithScoreAppend(init, [x], v);
      assert WithScore([x], v) == tail + WithScore([], v);
    }
  }

  function Min(a: nat, b: nat): nat { if a < b then a else b }

  /** The sorted hits cut to `limit` (`truncate(limit)` / `[:limit]`). */
  function Ranked(hits: seq<Hit>, limit: nat): (r: seq<Hit>)
    ensures |r| == Min(limit, |hits|)
    ensures Sorted(r)
    ensures forall h :: h in r ==> h in hits
  {
    var sorted := SortDesc(hits);
    var r := sorted[..Min(limit, |hits|)];
    assert forall h :: h in r ==> h in multiset(sorted);
    r
  }

  /** Truncation keeps the best: a hit that was cut off scores no higher than any kept hit, and
      nothing is cut off unless `limit` hits were kept. */
  lemma RankedKeepsBest(hits: seq<Hit>, limit: nat, h: Hit)
    requires h in hits && h !in Ranked(hits, limit)
    ensures |Ranked(hits, limit)| == limit
    ensures forall i :: 0 <= i < limit ==> Ranked(hits, limit)[i].score >= h.score
  {
    var sorted := SortDesc(hits);
    var m := Min(limit, |hits|);
    assert h in multiset(hits);
    assert h in sorted;
    var k :| 0 <= k < |sorted| && sorted[k] == h;
    forall j | 0 <= j < m
      ensures sorted[j] != h
    {
      assert sorted[..m][j] == sorted[j];
    }
    forall i | 0 <= i < m
      ensures sorted[..m][i].score >= h.score
    {
      assert sorted[..m][i] == sorted[i];
    }
  }

  lemma RankedKeepsBestAll(hits: seq<Hit>, limit: nat)
    ensures forall h :: h in hits && h !in Ranked(hits, limit) ==>
      |Ranked(hits, limit)| == limit && forall i :: 0 <= i < limit ==> Ranked(hits, limit)[i].score >= h.score
  {
    forall h | h in hits && h !in Ranked(hits, limit)
      ensures |Ranked(hits, limit)| == limit
      ensures forall i :: 0 <= i < limit ==> Ranked(hits, limit)[i].score >= h.score
    {
      RankedKeepsBest(hits, limit, h);
    }
  }

  // ---------------------------------------------------------------------------------------
  // Scoring
  // ---------------------------------------------------------------------------------------

  /** The non-empty anchor-stripped cores of the include terms, in order. */
  function Cores(includes: seq<string>): (r: seq<string>)
    ensures forall i :: 0 <= i < |r| ==> r[i] != []
  {
    if includes == [] then []
    else
      var c := SplitAnchor(includes[0]).core;
      (if c == [] then [] else [c]) + Cores(includes[1..])
  }

  /** Joining non-empty parts gives the empty string only when there are no parts. */
  lemma JoinWithEmptyIff(parts: seq<string>, sep: string)
    requires forall i :: 0 <= i < |parts| ==> parts[i] != []
    ensures JoinWith(parts, sep) == [] <==> parts == []
  {
    if |parts| > 1 {
      assert JoinWith(parts, sep) == parts[0] + sep + JoinWith(parts[1..], sep);
    }
  }

  /** The Rust scoring query: the include cores joined by spaces and lower-cased, or else the
      first exact term lower-cased. It is empty exactly when no include term has a non-empty
      core and there is no non-empty first exact term. */
  function ScoringQuery(spec: QuerySpec): (q: string)
    ensures q == [] <==> Cores(spec.includes) == [] && (spec.exacts == [] || spec.exacts[0] == [])
  {
    var cores := Cores(spec.includes);
    JoinWithEmptyIff(cores, " ");
    var q := LowerStr(JoinWith(cores, " "));
    if q == [] && spec.exacts != [] then LowerStr(spec.exacts[0]) else q
  }

  /** The Python scoring query: the include terms as written (anchors kept), joined and
      lower-cased, or else the first exact term lower-cased. */
  function ScoringQueryPrototype(spec: QuerySpec): (q: string)
    requires forall i :: 0 <= i < |spec.includes| ==> spec.includes[i] != []
    ensures q == [] <==> spec.includes == [] && (spec.exacts == [] || spec.exacts[0] == [])
  {
    JoinWithEmptyIff(spec.includes, " ");
    var q := LowerStr(JoinWith(spec.includes, " "));
    if q == [] && spec.exacts != [] then LowerStr(spec.exacts[0]) else q
  }

  lemma AllExactsMatchCons(terms: seq<string>, name: string, full: string)
    requires terms != []
    ensures AllExactsMatch(terms, name, full)
      <==> MatchesLiteralTerm(terms[0], name, full) && AllExactsMatch(terms[1..], name, full)
  {
    if AllExactsMatch(terms, name, full) {
      forall i | 0 <= i < |terms[1..]| ensures MatchesLiteralTerm(terms[1..][i], name, full) {
        assert terms[1..][i] == terms[i + 1];
      }
    }
    if MatchesLiteralTerm(terms[0], name, full) && AllExactsMatch(terms[1..], name, full) {
      forall i | 0 <= i < |terms| ensures MatchesLiteralTerm(terms[i], name, full) {
        if i > 0 { assert terms[i] == terms[1..][i - 1]; }
      }
    }
  }

  /** How many of `terms` match as exact terms. All of them match exactly when the count is
      the number of terms. */
  function CountMatching(terms: seq<string>, name: string, full: string): (n: nat)
    ensures n <= |terms|
    ensures n == |terms| <==> AllExactsMatch(terms, name, full)
  {
    if terms == [] then 0
    else
      var rest := CountMatching(terms[1..], name, full);
      AllExactsMatchCons(terms, name, full);
      (if MatchesLiteralTerm(terms[0], name, full) then 1 else 0) + rest
  }

  /** +1000 when the file name is the scoring query, else +900 when the whole path is, and +800
      for each exact term the path matches. */
  function Bonus(q: string, name: string, full: string, exacts: seq<string>): int {
    (if q != [] && name == q then 1000 else if q != [] && full == q then 900 else 0)
      + 800 * CountMatching(exacts, name, full)
  }

  /** A score in the Rust finder: the external score of the lower-cased path (0 without a scoring
      query) plus the bonuses. */
  function RustScore(spec: QuerySpec, p: Path, base: BaseScore): int {
    var q := ScoringQuery(spec);
    (if q == [] then 0 else base(q, FullOf(p))) + Bonus(q, NameOf(p), FullOf(p), spec.exacts)
  }

  /** A score in the Python prototype: the external score of the path text against the scoring
      query (or against the path text itself when there is none) plus the bonuses. */
  function PrototypeScore(spec: QuerySpec, p: Path, base: BaseScore): int
    requires forall i :: 0 <= i < |spec.includes| ==> spec.includes[i] != []
  {
    var q := ScoringQueryPrototype(spec);
    var key := ToString(p);
    base(if q == [] then key else q, key) + Bonus(q, NameOf(p), FullOf(p), spec.exacts)
  }

  /** Every path a query accepts matches all of its exact terms, so each of them adds its 800. */
  lemma AcceptedEarnsEveryExactBonus(spec: QuerySpec, p: Path, useRegex: bool, re: RegexEngine, q: string)
    requires Accepts(spec, p, useRegex, re)
    ensures Bonus(q, NameOf(p), FullOf(p), spec.exacts)
         == (if q != [] && NameOf(p) == q then 1000 else if q != [] && FullOf(p) == q then 900 else 0)
            + 800 * |spec.exacts|
  {
  }

  /** A file name equal to the scoring query outranks, by 100 bonus points, a whole path equal
      to it, and both outrank a path equal to neither. */
  lemma NameMatchBonusDominates(q: string, name: string, full: string, exacts: seq<string>)
    requires q != []
    ensures name == q ==> Bonus(q, name, full, exacts) == 1000 + 800 * CountMatching(exacts, name, full)
    ensures name != q && full == q ==> Bonus(q, name, full, exacts) == 900 + 800 * CountMatching(exacts, name, full)
    ensures name != q && full != q ==> Bonus(q, name, full, exacts) == 800 * CountMatching(exacts, name, full)
  {
  }

  // ---------------------------------------------------------------------------------------
  // search_entries
  // ---------------------------------------------------------------------------------------

  function RustHits(spec: QuerySpec, ps: seq<Path>, base: BaseScore): (r: seq<Hit>)
    ensures |r| == |ps|
    ensures forall i :: 0 <= i < |ps| ==> r[i] == Hit(ps[i], RustScore(spec, ps[i], base))
  {
    seq(|ps|, i requires 0 <= i < |ps| => Hit(ps[i], RustScore(spec, ps[i], base)))
  }

  /** The entries a query accepts, in input order (the `filter` over `matches_spec`). */
  function AcceptedEntries(spec: QuerySpec, entries: seq<Path>, useRegex: bool, re: RegexEngine): (r: seq<Path>)
    ensures |r| <= |entries|
    ensures forall p :: p in r <==> p in entries && Accepts(spec, p, useRegex, re)
  {
    if entries == [] then []
    else
      var init := entries[..|entries| - 1];
      var p := entries[|entries| - 1];
      assert entries == init + [p];
      AcceptedEntries(spec, init, useRegex, re) + (if Accepts(spec, p, useRegex, re) then [p] else [])
  }

  /** `search_entries` (rust/src/search.rs): a blank trimmed query or a zero limit gives nothing;
      otherwise the accepted entries, scored, sorted best first and cut to `limit`. */
  function SearchEntries(query: string, entries: seq<Path>, limit: nat, useRegex: bool, re: RegexEngine,
                         base: BaseScore): (r: seq<Hit>)
    ensures AllSpace(query) || limit == 0 ==> r == []
    ensures |r| <= limit
    ensures Sorted(r)
  {
    var t := Trim(query);
    if t == [] || limit == 0 then []
    else
      var spec := ParseQuery(t);
      var filtered := AcceptedEntries(spec, entries, useRegex, re);
      if filtered == [] then [] else Ranked(RustHits(spec, filtered, base), limit)
  }

  /** A hit drawn from hits built position by position from `ps` carries a path of `ps`. */
  lemma HitPathFrom(hits: seq<Hit>, ps: seq<Path>, h: Hit)
    requires |hits| == |ps| && forall k :: 0 <= k < |ps| ==> hits[k].path == ps[k]
    requires h in hits
    ensures h.path in ps
  {
    var k :| 0 <= k < |hits| && hits[k] == h;
    assert ps[k] == h.path;
  }

  /** Ranking hits built from accepted entries returns accepted entries only. */
  lemma RankedAccepted(spec: QuerySpec, entries: seq<Path>, useRegex: bool, re: RegexEngine,
                       hits: seq<Hit>, ps: seq<Path>, limit: nat)
    requires forall p :: p in ps ==> p in entries && Accepts(spec, p, useRegex, re)
    requires |hits| == |ps| && forall k :: 0 <= k < |ps| ==> hits[k].path == ps[k]
    ensures var r := Ranked(hits, limit);
      forall i :: 0 <= i < |r| ==> r[i].path in entries && Accepts(spec, r[i].path, useRegex, re)
  {
    var r := Ranked(hits, limit);
    forall i | 0 <= i < |r|
      ensures r[i].path in entries && Accepts(spec, r[i].path, useRegex, re)
    {
      HitPathFrom(hits, ps, r[i]);
    }
  }

  /** Ranking the Rust finder's hits keeps each path with its own score. */
  lemma RankedScored(spec: QuerySpec, hits: seq<Hit>, limit: nat, base: BaseScore)
    requires forall k :: 0 <= k < |hits| ==> hits[k].score == RustScore(spec, hits[k].path, base)
    ensures var r := Ranked(hits, limit);
      forall i :: 0 <= i < |r| ==> r[i].score == RustScore(spec, r[i].path, base)
  {
    var r := Ranked(hits, limit);
    forall i | 0 <= i < |r|
      ensures r[i].score == RustScore(spec, r[i].path, base)
    {
      assert r[i] in hits;
      var k :| 0 <= k < |hits| && hits[k] == r[i];
    }
  }

  /** Every result is an input entry the query accepts, carrying its score. */
  lemma SearchResultsAccepted(query: string, entries: seq<Path>, limit: nat, useRegex: bool, re: RegexEngine,
                              base: BaseScore)
    ensures var r := SearchEntries(query, entries, limit, useRegex, re, base);
      var spec := ParseQuery(Trim(query));
      forall i :: 0 <= i < |r| ==>
        r[i].path in entries && Accepts(spec, r[i].path, useRegex, re) && r[i].score == RustScore(spec, r[i].path, base)
  {
    var r := SearchEntries(query, entries, limit, useRegex, re, base);
    var t := Trim(query);
    var spec := ParseQuery(t);
    var filtered := AcceptedEntries(spec, entries, useRegex, re);
    var hits := RustHits(spec, filtered, base);
    if t != [] && limit != 0 && filtered != [] {
      assert r == Ranked(hits, limit);
      RankedAccepted(spec, entries, useRegex, re, hits, filtered, limit);
      RankedScored(spec, hits, limit, base);
    } else {
      assert r == [];
    }
  }

  /** Truncation keeps the best: an accepted entry is missing from the result only when `limit`
      results were returned, every one scoring at least as high as it. */
  lemma SearchKeepsBest(query: string, entries: seq<Path>, limit: nat, useRegex: bool, re: RegexEngine,
                        base: BaseScore, p: Path)
    requires !AllSpace(query)
    requires p in entries && Accepts(ParseQuery(Trim(query)), p, useRegex, re)
    requires Hit(p, RustScore(ParseQuery(Trim(query)), p, base)) !in SearchEntries(query, entries, limit, useRegex, re, base)
    ensures var r := SearchEntries(query, entries, limit, useRegex, re, base);
      |r| == limit && forall i :: 0 <= i < |r| ==> r[i].score >= RustScore(ParseQuery(Trim(query)), p, base)
  {
    var spec := ParseQuery(Trim(query));
    var filtered := AcceptedEntries(spec, entries, useRegex, re);
    var hits := RustHits(spec, filtered, base);
    var k :| 0 <= k < |filtered| && filtered[k] == p;
    assert hits[k] == Hit(p, RustScore(spec, p, base));
    if limit > 0 {
      RankedKeepsBest(hits, limit, hits[k]);
    }
  }

  function PrototypeHits(spec: QuerySpec, ps: seq<Path>, base: BaseScore): (r: seq<Hit>)
    requires forall i :: 0 <= i < |spec.includes| ==> spec.includes[i] != []
    ensures |r| == |ps|
    ensures forall i :: 0 <= i < |ps| ==> r[i] == Hit(ps[i], PrototypeScore(spec, ps[i], base))
  {
    seq(|ps|, i requires 0 <= i < |ps| => Hit(ps[i], PrototypeScore(spec, ps[i], base)))
  }

  lemma {:induction false} NoDupsCount<T>(s: seq<T>, x: T)
    requires NoDups(s)
    ensures multiset(s)[x] <= 1
    decreases |s|
  {
    if s != [] {
      var init := s[..|s| - 1];
      assert s == init + [s[|s| - 1]];
      NoDupsCount(init, x);
      if x == s[|s| - 1] {
        assert x !in init;
      }
    }
  }

  /** A permutation of a duplicate-free sequence is duplicate-free. */
  lemma NoDupsPermutation<T>(a: seq<T>, b: seq<T>)
    requires NoDups(a) && multiset(a) == multiset(b)
    ensures NoDups(b)
  {
    forall i, j | 0 <= i < j < |b|
      ensures b[i] != b[j]
    {
      if b[i] == b[j] {
        var x := b[i];
        assert b == b[..j] + [b[j]] + b[j + 1..];
        assert x in b[..j];
        assert multiset(b)[x] >= 2 by {
          assert multiset(b) == multiset(b[..j]) + multiset{x} + multiset(b[j + 1..]);
        }
        NoDupsCount(a, x);
      }
    }
  }

  /** `search_entries` of the Python prototype: like the Rust one, except that lone markers are
      include terms, the scoring query keeps anchors, and paths are first de-duplicated through a
      map keyed by their text, so no path is returned twice. */
  function SearchEntriesPrototype(query: string, entries: seq<Path>, limit: int, useRegex: bool,
                                  re: RegexEngine, base: BaseScore): (r: seq<Hit>)
    ensures AllSpace(query) || limit <= 0 ==> r == []
    ensures |r| <= if limit < 0 then 0 else limit
    ensures Sorted(r)
    ensures forall i, j :: 0 <= i < j < |r| ==> r[i].path != r[j].path
  {
    var t := Trim(query);
    if t == [] || limit <= 0 then []
    else
      var spec := ParseQueryPrototype(t);
      PrototypeTermsNonEmpty(t);
      var filtered := AcceptedEntries(spec, entries, useRegex, re);
      if filtered == [] then []
      else
        var mapping := Dedup(filtered);
        var hits := PrototypeHits(spec, mapping, base);
        var r := Ranked(hits, limit);
        DistinctPathsRanked(spec, mapping, base, limit);
        r
  }

  lemma DistinctPathsRanked(spec: QuerySpec, ps: seq<Path>, base: BaseScore, limit: nat)
    requires forall i :: 0 <= i < |spec.includes| ==> spec.includes[i] != []
    requires NoDups(ps)
    ensures var r := Ranked(PrototypeHits(spec, ps, base), limit);
      forall i, j :: 0 <= i < j < |r| ==> r[i].path != r[j].path
  {
    var hits := PrototypeHits(spec, ps, base);
    var sorted := SortDesc(hits);
    var r := Ranked(hits, limit);
    NoDupsPermutation(hits, sorted);
    forall i, j | 0 <= i < j < |r|
      ensures r[i].path != r[j].path
    {
      assert r[i] == sorted[i] && r[j] == sorted[j];
      assert r[i] in hits && r[j] in hits;
      var a :| 0 <= a < |hits| && hits[a] == r[i];
      var b :| 0 <= b < |hits| && hits[b] == r[j];
      if a != b {
        assert ps[a] != ps[b];
      }
    }
  }

  /** Every result of the prototype is an input entry its query accepts. */
  lemma PrototypeResultsAccepted(query: string, entries: seq<Path>, limit: int, useRegex: bool, re: RegexEngine,
                                 base: BaseScore)
    ensures var r := SearchEntriesPrototype(query, entries, limit, useRegex, re, base);
      var spec := ParseQueryPrototype(Trim(query));
      forall i :: 0 <= i < |r| ==> r[i].path in entries && Accepts(spec, r[i].path, useRegex, re)
  {
    var r := SearchEntriesPrototype(query, entries, limit, useRegex, re, base);
    var t := Trim(query);
    if t != [] && limit > 0 {
      var spec := ParseQueryPrototype(t);
      PrototypeTermsNonEmpty(t);
      var filtered := AcceptedEntries(spec, entries, useRegex, re);
      var mapping := Dedup(filtered);
      var hits := PrototypeHits(spec, mapping, base);
      if filtered != [] {
        assert r == Ranked(hits, limit);
        RankedAccepted(spec, entries, useRegex, re, hits, mapping, limit);
      }
    }
  }

  lemma PrototypeTermsNonEmpty(query: string)
    ensures var spec := ParseQueryPrototype(query);
      forall i :: 0 <= i < |spec.includes| ==> spec.includes[i] != []
  {
    PrototypeIncludesNonEmpty(SplitWhitespace(query));
  }

  lemma {:induction false} PrototypeIncludesNonEmpty(toks: seq<string>)
    requires forall i :: 0 <= i < |toks| ==> toks[i] != []
    ensures var spec := ParseTokensPrototype(toks);
      forall i :: 0 <= i < |spec.includes| ==> spec.includes[i] != []
    decreases |toks|
  {
    if toks != [] {
      var init := toks[..|toks| - 1];
      PrototypeIncludesNonEmpty(init);
      var c := ClassifyPrototype(toks[|toks| - 1]);
      var prev := ParseTokensPrototype(init);
      assert ParseTokensPrototype(toks) == Add(prev, c);
      if c.Include? {
        assert Add(prev, c).includes == prev.includes + [c.term];
      }
    }
  }
}
