/** The query compiler: a query string becomes include, exact (`'x`) and exclude (`!x`) terms,
    and a term's `^`/`$` anchors are split off its core. Models `QuerySpec`, `split_anchor` and
    `parse_query` of rust/src/search.rs and `_parse_query` of the Python prototype. */
module Query {
  import opened Text

  datatype QuerySpec = QuerySpec(includes: seq<string>, exacts: seq<string>, excludes: seq<string>)

  const Empty := QuerySpec([], [], [])

  /** A term with its anchors split off: `start` for a leading '^', `end` for a trailing '$'. */
  datatype Anchored = Anchored(start: bool, end: bool, core: string)

  /** The term an `Anchored` was split from. */
  function Reanchor(a: Anchored): string {
    (if a.start then "^" else "") + a.core + (if a.end then "$" else "")
  }

  /** `split_anchor`: strips at most one leading '^' and one trailing '$' and reports which it
      stripped. Together with the flags, the core determines the term again. */
  function SplitAnchor(term: string): (r: Anchored)
    ensures r.start <==> StartsWith(term, "^")
    ensures r.end <==> EndsWith(term, "$")
    ensures Reanchor(r) == term
  {
    var s := |term| > 0 && term[0] == '^';
    var e := |term| > 0 && term[|term| - 1] == '$';
    var lo := if s then 1 else 0;
    var hi := if e then |term| - 1 else |term|;
    assert StartsWith(term, "^") <==> s by {
      if |term| > 0 { assert term[..1] == [term[0]]; }
    }
    assert EndsWith(term, "$") <==> e by {
      if |term| > 0 { assert term[|term| - 1..] == [term[|term| - 1]]; }
    }
    var r := Anchored(s, e, term[lo..hi]);
    assert term == term[..lo] + term[lo..hi] + term[hi..];
    r
  }

  /** Where one query token goes. */
  datatype TokenClass = Ignored | Exact(term: string) | Exclude(term: string) | Include(term: string)

  /** How `parse_query` files one token: a lone marker is ignored, `'x` is exact, `!x` is an
      exclusion, and anything else is an include term kept verbatim. */
  function Classify(token: string): (c: TokenClass)
    ensures c.Ignored? <==> !NoLoneMarker(token)
    ensures c.Exact? || c.Exclude? ==> |token| > 1 && c.term == token[1..]
    ensures c.Include? ==> c.term == token
  {
    if token == "!" || token == "'" then Ignored
    else if |token| > 1 && token[0] == '\'' then Exact(token[1..])
    else if |token| > 1 && token[0] == '!' then Exclude(token[1..])
    else Include(token)
  }

  /** `_parse_query` of the Python prototype files tokens the same way, except that it has no
      ignore rule: a lone `!` or `'` becomes an include term. */
  function ClassifyPrototype(token: string): (c: TokenClass)
    ensures !c.Ignored?
  {
    if |token| > 1 && token[0] == '\'' then Exact(token[1..])
    else if |token| > 1 && token[0] == '!' then Exclude(token[1..])
    else Include(token)
  }

  function Add(spec: QuerySpec, c: TokenClass): QuerySpec {
    match c
    case Ignored => spec
    case Exact(t) => spec.(exacts := spec.exacts + [t])
    case Exclude(t) => spec.(excludes := spec.excludes + [t])
    case Include(t) => spec.(includes := spec.includes + [t])
  }

  /** The three lists, each in token order, as the source's `push`/`append` loop builds them. */
  function ParseTokensWith(classify: string -> TokenClass, toks: seq<string>): QuerySpec {
    if toks == [] then Empty
    else Add(ParseTokensWith(classify, toks[..|toks| - 1]), classify(toks[|toks| - 1]))
  }

  function Concat(a: QuerySpec, b: QuerySpec): QuerySpec {
    QuerySpec(a.includes + b.includes, a.exacts + b.exacts, a.excludes + b.excludes)
  }

  /** Parsing is compositional: the terms of `a + b` are those of `a` followed by those of `b`,
      class by class. Token order is therefore kept inside each list. */
  lemma {:induction false} ParseTokensAppend(classify: string -> TokenClass, a: seq<string>, b: seq<string>)
    ensures ParseTokensWith(classify, a + b) == Concat(ParseTokensWith(classify, a), ParseTokensWith(classify, b))
    decreases |b|
  {
    if b == [] {
      assert a + b == a;
    } else {
      var b' := b[..|b| - 1];
      assert (a + b)[..|a + b| - 1] == a + b';
      ParseTokensAppend(classify, a, b');
    }
  }

  function ParseTokens(toks: seq<string>): QuerySpec {
    ParseTokensWith(Classify, toks)
  }

  function ParseTokensPrototype(toks: seq<string>): QuerySpec {
    ParseTokensWith(ClassifyPrototype, toks)
  }

  predicate NoLoneMarker(t: string) {
    t != "!" && t != "'"
  }

  /** Exact and exclude terms are never empty and no include term is empty or a lone marker. */
  predicate Shaped(spec: QuerySpec) {
    && (forall i :: 0 <= i < |spec.exacts| ==> spec.exacts[i] != [])
    && (forall i :: 0 <= i < |spec.excludes| ==> spec.excludes[i] != [])
    && (forall i :: 0 <= i < |spec.includes| ==> spec.includes[i] != [] && NoLoneMarker(spec.includes[i]))
  }

  /** `parse_query`: whitespace-separated tokens, classified one by one. */
  function ParseQuery(query: string): (spec: QuerySpec)
    ensures Shaped(spec)
  {
    var toks := SplitWhitespace(query);
    ParseTokensShape(toks);
    ParseTokens(toks)
  }

  lemma {:induction false} ParseTokensShape(toks: seq<string>)
    requires forall i :: 0 <= i < |toks| ==> toks[i] != []
    ensures Shaped(ParseTokens(toks))
    decreases |toks|
  {
    if toks != [] {
      var init := toks[..|toks| - 1];
      ParseTokensShape(init);
      var prev := ParseTokens(init);
      var c := Classify(toks[|toks| - 1]);
      assert ParseTokens(toks) == Add(prev, c);
      match c
      case Ignored =>
      case Exact(t) => assert Add(prev, c).exacts == prev.exacts + [t];
      case Exclude(t) => assert Add(prev, c).excludes == prev.excludes + [t];
      case Include(t) => assert Add(prev, c).includes == prev.includes + [t];
    }
  }

  /** `_parse_query` of the Python prototype. */
  function ParseQueryPrototype(query: string): QuerySpec {
    ParseTokensPrototype(SplitWhitespace(query))
  }

  /** A token that is exactly `!` or `'` contributes nothing to any term list, wherever it
      stands among the other tokens. */
  lemma LoneMarkerIgnored(a: seq<string>, marker: string, b: seq<string>)
    requires marker == "!" || marker == "'"
    ensures ParseTokens(a + [marker] + b) == ParseTokens(a + b)
  {
    ParseTokensAppend(Classify, a + [marker], b);
    ParseTokensAppend(Classify, a, b);
    assert (a + [marker])[..|a + [marker]| - 1] == a;
  }

  /** The Python prototype instead turns a lone marker into an include term. */
  lemma PrototypeKeepsLoneMarker(a: seq<string>, marker: string)
    requires marker == "!" || marker == "'"
    ensures ParseTokensPrototype(a + [marker]).includes == ParseTokensPrototype(a).includes + [marker]
  {
    assert (a + [marker])[..|a + [marker]| - 1] == a;
  }

  /** On queries without lone markers the Rust and Python compilers agree. */
  lemma {:induction false} PrototypeAgreesWithoutLoneMarkers(toks: seq<string>)
    requires forall i :: 0 <= i < |toks| ==> NoLoneMarker(toks[i])
    ensures ParseTokensPrototype(toks) == ParseTokens(toks)
    decreases |toks|
  {
    if toks != [] {
      PrototypeAgreesWithoutLoneMarkers(toks[..|toks| - 1]);
    }
  }

  // ---------------------------------------------------------------------------------------
  // Rendering a QuerySpec back to a query string
  // ---------------------------------------------------------------------------------------

  function Prefixed(mark: char, terms: seq<string>): (r: seq<string>)
    ensures |r| == |terms|
    ensures forall i :: 0 <= i < |terms| ==> r[i] == [mark] + terms[i]
  {
    seq(|terms|, i requires 0 <= i < |terms| => [mark] + terms[i])
  }

  /** Tokens that compile back to `spec`: exact terms, then exclusions, then include terms. */
  function Render(spec: QuerySpec): seq<string> {
    Prefixed('\'', spec.exacts) + Prefixed('!', spec.excludes) + spec.includes
  }

  predicate Term(t: string) {
    t != [] && NoSpace(t)
  }

  /** A spec some query compiles to: every term is a non-empty space-free word, and include terms
      do not begin with a marker (else they would be read as exact or exclude terms). */
  predicate Renderable(spec: QuerySpec) {
    && (forall i :: 0 <= i < |spec.exacts| ==> Term(spec.exacts[i]))
    && (forall i :: 0 <= i < |spec.excludes| ==> Term(spec.excludes[i]))
    && (forall i :: 0 <= i < |spec.includes| ==>
          Term(spec.includes[i]) && spec.includes[i][0] != '\'' && spec.includes[i][0] != '!')
  }

  lemma {:induction false} ParsePrefixed(mark: char, terms: seq<string>)
    requires mark == '\'' || mark == '!'
    requires forall i :: 0 <= i < |terms| ==> terms[i] != []
    ensures ParseTokens(Prefixed(mark, terms))
         == if mark == '\'' then QuerySpec([], terms, []) else QuerySpec([], [], terms)
    decreases |terms|
  {
    if terms != [] {
      var init := terms[..|terms| - 1];
      assert Prefixed(mark, terms)[..|terms| - 1] == Prefixed(mark, init);
      ParsePrefixed(mark, init);
      var last := [mark] + terms[|terms| - 1];
      assert last[1..] == terms[|terms| - 1];
      assert init + [terms[|terms| - 1]] == terms;
    }
  }

  lemma {:induction false} ParseIncludes(terms: seq<string>)
    requires forall i :: 0 <= i < |terms| ==> terms[i] != [] && terms[i][0] != '\'' && terms[i][0] != '!'
    ensures ParseTokens(terms) == QuerySpec(terms, [], [])
    decreases |terms|
  {
    if terms != [] {
      var init := terms[..|terms| - 1];
      ParseIncludes(init);
      assert init + [terms[|terms| - 1]] == terms;
    }
  }

  lemma RenderedTokensAreWords(spec: QuerySpec)
    requires Renderable(spec)
    ensures forall i :: 0 <= i < |Render(spec)| ==> Render(spec)[i] != [] && NoSpace(Render(spec)[i])
  {
    var toks := Render(spec);
    var ne := |spec.exacts|;
    var nx := |spec.excludes|;
    forall i | 0 <= i < |toks|
      ensures toks[i] != [] && NoSpace(toks[i])
    {
      if i < ne {
        assert toks[i] == ['\''] + spec.exacts[i];
      } else if i < ne + nx {
        assert toks[i] == ['!'] + spec.excludes[i - ne];
      } else {
        assert toks[i] == spec.includes[i - ne - nx];
      }
    }
  }

  /** The marked tokens parse to the exact and exclude terms, in order. */
  lemma MarkedTokensParse(exacts: seq<string>, excludes: seq<string>)
    requires forall i :: 0 <= i < |exacts| ==> exacts[i] != []
    requires forall i :: 0 <= i < |excludes| ==> excludes[i] != []
    ensures ParseTokens(Prefixed('\'', exacts) + Prefixed('!', excludes)) == QuerySpec([], exacts, excludes)
  {
    ParsePrefixed('\'', exacts);
    ParsePrefixed('!', excludes);
    ParseTokensAppend(Classify, Prefixed('\'', exacts), Prefixed('!', excludes));
    assert [] + excludes == excludes && exacts + [] == exacts;
  }

  /** The rendered tokens parse back to the spec. */
  lemma RenderParses(spec: QuerySpec)
    requires Renderable(spec)
    ensures ParseTokens(Render(spec)) == spec
  {
    var front := Prefixed('\'', spec.exacts) + Prefixed('!', spec.excludes);
    assert ParseTokens(front) == QuerySpec([], spec.exacts, spec.excludes) by {
      assert forall i :: 0 <= i < |spec.exacts| ==> spec.exacts[i] != [];
      assert forall i :: 0 <= i < |spec.excludes| ==> spec.excludes[i] != [];
      MarkedTokensParse(spec.exacts, spec.excludes);
    }
    assert ParseTokens(spec.includes) == QuerySpec(spec.includes, [], []) by {
      ParseIncludes(spec.includes);
    }
    assert ParseTokens(Render(spec)) == Concat(ParseTokens(front), ParseTokens(spec.includes)) by {
      ParseTokensAppend(Classify, front, spec.includes);
    }
    assert [] + spec.includes == spec.includes && spec.exacts + [] == spec.exacts && spec.excludes + [] == spec.excludes;
  }

  /** Round trip: rendering a spec as a query string and compiling that string gives the spec back. */
  lemma ParseRenderRoundTrip(spec: QuerySpec)
    requires Renderable(spec)
    ensures ParseQuery(JoinWith(Render(spec), " ")) == spec
  {
    RenderedTokensAreWords(spec);
    SplitJoinRoundTrip(Render(spec));
    RenderParses(spec);
  }
}
