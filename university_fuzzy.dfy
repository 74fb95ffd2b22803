/** The fuzzy stage of crosswalking/universities.py: full-text retrieval of
    candidate IPEDS rows for every CEEB university without an exact match
    (`search_index` and the loop over `non_exact_ceeb`), the two
    four-combination similarity scores, the acceptance rule and the
    reduction to one candidate per IPEDS id.

    The BM25 scorer of DuckDB's full-text extension, `Levenshtein.ratio` and
    `fuzz.token_sort_ratio` are libraries whose code is not part of this
    model: each is a function parameter, and nothing is assumed about its
    range. */
module UniversityFuzzy {
  import opened Sql
  import opened UniversityExact

  /** `match_bm25(ipeds, query)`: the score of the indexed document with
      key `ipeds` against the query text, or NULL. */
  type Bm25 = (Option<string>, Option<string>) -> Option<real>

  /** `Levenshtein.ratio` on two column values, either of which may be
      NULL (Python's `None`); `None` as the result means the call raises.
      Whether the library raises on `None` is left to the parameter. */
  type Ratio = (Option<string>, Option<string>) -> Option<real>

  /** `fuzz.token_sort_ratio`, an integer score, or `None` if it raises. */
  type SortRatio = (Option<string>, Option<string>) -> Option<int>

  /** An IPEDS row with its score. */
  datatype Hit = Hit(score: real, row: IpedsRow)

  /** The rows with a non-NULL score whose state equals the query's state
      ignoring case (`match_score IS NOT NULL AND lower(state) = lower(?)`). */
  function Hits(hs: seq<IpedsRow>, bm25: Bm25, name: Option<string>, state: Option<string>): (r: seq<Hit>)
    ensures forall x :: x in r <==>
      x.row in hs && bm25(x.row.ipeds, name) == Some(x.score) && SqlEq(LowerName(x.row.state), LowerName(state))
  {
    if hs == [] then []
    else
      var h := hs[0];
      var rest := Hits(hs[1..], bm25, name, state);
      assert forall x :: x in hs <==> x == h || x in hs[1..];
      var s := bm25(h.ipeds, name);
      if s.Some? && SqlEq(LowerName(h.state), LowerName(state)) then [Hit(s.value, h)] + rest else rest
  }

  predicate SortedDesc(s: seq<Hit>)
  {
    forall i, j :: 0 <= i < j < |s| ==> s[i].score >= s[j].score
  }

  function Insert(x: Hit, s: seq<Hit>): (r: seq<Hit>)
    requires SortedDesc(s)
    ensures SortedDesc(r)
    ensures multiset(r) == multiset(s) + multiset{x}
    ensures |r| > 0 && (r[0] == x || (s != [] && r[0] == s[0]))
  {
    if s == [] || x.score >= s[0].score then [x] + s
    else
      assert s == [s[0]] + s[1..];
      [s[0]] + Insert(x, s[1..])
  }

  /** `ORDER BY match_score DESC`, as an insertion sort: the order among
      equal scores is not part of the model. */
  function SortDesc(s: seq<Hit>): (r: seq<Hit>)
    ensures SortedDesc(r)
    ensures multiset(r) == multiset(s)
  {
    if s == [] then []
    else
      assert s == [s[0]] + s[1..];
      Insert(s[0], SortDesc(s[1..]))
  }

  function Min(a: nat, b: nat): nat
  {
    if a <= b then a else b
  }

  /** `ORDER BY match_score DESC LIMIT limit`. */
  function Top(hits: seq<Hit>, limit: nat): seq<Hit>
  {
    var s := SortDesc(hits);
    s[..Min(limit, |s|)]
  }

  /** The retrieval keeps `limit` of the hits (all of them when there are
      fewer), in descending order of score, and every hit it drops scores
      no higher than every hit it keeps. */
  lemma TopHits(hits: seq<Hit>, limit: nat)
    ensures |Top(hits, limit)| == Min(limit, |hits|)
    ensures SortedDesc(Top(hits, limit))
    ensures multiset(Top(hits, limit)) <= multiset(hits)
    ensures forall x, y :: x in multiset(hits) - multiset(Top(hits, limit)) && y in Top(hits, limit) ==> y.score >= x.score
  {
    var s := SortDesc(hits);
    var k := Min(limit, |s|);
    TopParts(hits, limit);
    SortedSplit(s, k);
  }

  /** The kept hits and the dropped ones make up all the hits. */
  lemma TopParts(hits: seq<Hit>, limit: nat)
    ensures |SortDesc(hits)| == |hits|
    ensures Top(hits, limit) == SortDesc(hits)[..Min(limit, |hits|)]
    ensures multiset(hits) == multiset(Top(hits, limit)) + multiset(SortDesc(hits)[Min(limit, |hits|)..])
  {
    var s := SortDesc(hits);
    assert |s| == |multiset(s)| == |hits|;
    SplitAt(s, Min(limit, |s|));
  }

  /** In a descending sequence the first k elements are sorted and score at
      least as high as the rest. */
  lemma SortedSplit(s: seq<Hit>, k: nat)
    requires SortedDesc(s) && k <= |s|
    ensures SortedDesc(s[..k])
    ensures forall x, y :: x in s[k..] && y in s[..k] ==> y.score >= x.score
  {
    forall x, y | x in s[k..] && y in s[..k] ensures y.score >= x.score {
      var j :| 0 <= j < |s[k..]| && s[k..][j] == x;
      var i :| 0 <= i < k && s[..k][i] == y;
      assert s[i] == y && s[k + j] == x;
    }
  }

  /** A retrieved row, tagged with the CEEB query it was retrieved for. */
  datatype Candidate = Candidate(
    score: real, ceeb: Option<string>, searchName: Option<string>, searchState: Option<string>, row: IpedsRow)

  /** `with_columns(search_name=..., search_state=..., ceeb=...)`: each hit,
      in order, with the query's three literal columns. */
  function TagHits(t: seq<Hit>, ceeb: Option<string>, name: Option<string>, state: Option<string>): (r: seq<Candidate>)
    ensures |r| == |t|
    ensures forall i :: 0 <= i < |r| ==> r[i] == Candidate(t[i].score, ceeb, name, state, t[i].row)
  {
    if t == [] then []
    else [Candidate(t[0].score, ceeb, name, state, t[0].row)] + TagHits(t[1..], ceeb, name, state)
  }

  /** The hit a candidate carries: its score and its IPEDS row. */
  function HitOf(c: Candidate): Hit
  {
    Hit(c.score, c.row)
  }

  /** Tagging adds columns and loses nothing: dropping them gives back the
      hits, in order. */
  lemma TagUntag(t: seq<Hit>, ceeb: Option<string>, name: Option<string>, state: Option<string>)
    ensures Map(HitOf, TagHits(t, ceeb, name, state)) == t
  {
    var r := TagHits(t, ceeb, name, state);
    assert forall i :: 0 <= i < |t| ==> Map(HitOf, r)[i] == HitOf(r[i]) == t[i];
  }

  /** `search_index(duck, name, state, ceeb, limit)` over `ipeds_hd`. */
  function SearchIndex(hs: seq<IpedsRow>, bm25: Bm25, name: Option<string>, state: Option<string>,
                       ceeb: Option<string>, limit: nat): seq<Candidate>
  {
    TagHits(Top(Hits(hs, bm25, name, state), limit), ceeb, name, state)
  }

  /** What one search returns: at most `limit` rows, by descending score,
      each an IPEDS row with a score and the query's state, tagged with the
      query. */
  lemma SearchIndexRows(hs: seq<IpedsRow>, bm25: Bm25, name: Option<string>, state: Option<string>,
                        ceeb: Option<string>, limit: nat)
    ensures |SearchIndex(hs, bm25, name, state, ceeb, limit)| == Min(limit, |Hits(hs, bm25, name, state)|)
    ensures forall i, j :: 0 <= i < j < |SearchIndex(hs, bm25, name, state, ceeb, limit)| ==>
      SearchIndex(hs, bm25, name, state, ceeb, limit)[i].score >= SearchIndex(hs, bm25, name, state, ceeb, limit)[j].score
    ensures forall c :: c in SearchIndex(hs, bm25, name, state, ceeb, limit) ==>
      && c.ceeb == ceeb && c.searchName == name && c.searchState == state
      && c.row in hs && bm25(c.row.ipeds, name) == Some(c.score)
      && SqlEq(LowerName(c.row.state), LowerName(state))
  {
    var hits := Hits(hs, bm25, name, state);
    var t := Top(hits, limit);
    TopHits(hits, limit);
    TaggedRows(hits, t, ceeb, name, state);
    forall c | c in TagHits(t, ceeb, name, state)
      ensures c.row in hs && bm25(c.row.ipeds, name) == Some(c.score) && SqlEq(LowerName(c.row.state), LowerName(state))
    {
      assert HitOf(c) in hits;
    }
  }

  /** What `TopHits` says of sorted hits t drawn from `hits` carries over to
      their tagged rows: same order of scores, and each row is tagged with
      the query and carries one of the hits. */
  lemma TaggedRows(hits: seq<Hit>, t: seq<Hit>, ceeb: Option<string>, name: Option<string>, state: Option<string>)
    requires SortedDesc(t) && multiset(t) <= multiset(hits)
    ensures forall i, j :: 0 <= i < j < |TagHits(t, ceeb, name, state)| ==>
      TagHits(t, ceeb, name, state)[i].score >= TagHits(t, ceeb, name, state)[j].score
    ensures forall c :: c in TagHits(t, ceeb, name, state) ==>
      HitOf(c) in hits && c.ceeb == ceeb && c.searchName == name && c.searchState == state
  {
    var r := TagHits(t, ceeb, name, state);
    forall c | c in r ensures HitOf(c) in t && c.ceeb == ceeb && c.searchName == name && c.searchState == state {
      var i :| 0 <= i < |r| && r[i] == c;
      assert HitOf(c) == t[i];
    }
    forall c | c in r ensures HitOf(c) in hits {
      assert HitOf(c) in multiset(t);
    }
  }

  /** The search keeps top hits: its hits are hits of the query, with their
      multiplicity, and every hit it leaves out scores no higher than every
      row it keeps. */
  lemma SearchIndexTop(hs: seq<IpedsRow>, bm25: Bm25, name: Option<string>, state: Option<string>,
                       ceeb: Option<string>, limit: nat)
    ensures multiset(Map(HitOf, SearchIndex(hs, bm25, name, state, ceeb, limit))) <= multiset(Hits(hs, bm25, name, state))
    ensures forall x, c ::
      (x in multiset(Hits(hs, bm25, name, state)) - multiset(Map(HitOf, SearchIndex(hs, bm25, name, state, ceeb, limit))) &&
       c in SearchIndex(hs, bm25, name, state, ceeb, limit)) ==> c.score >= x.score
  {
    var hits := Hits(hs, bm25, name, state);
    var t := Top(hits, limit);
    TopHits(hits, limit);
    TagUntag(t, ceeb, name, state);
    TaggedTop(hits, t, TagHits(t, ceeb, name, state));
  }

  /** What `TopHits` says of the hits carries over to the tagged rows. */
  lemma TaggedTop(hits: seq<Hit>, t: seq<Hit>, r: seq<Candidate>)
    requires Map(HitOf, r) == t && multiset(t) <= multiset(hits)
    requires forall x, y :: x in multiset(hits) - multiset(t) && y in t ==> y.score >= x.score
    ensures multiset(Map(HitOf, r)) <= multiset(hits)
    ensures forall x, c :: (x in multiset(hits) - multiset(Map(HitOf, r)) && c in r) ==> c.score >= x.score
  {
    forall x, c | x in multiset(hits) - multiset(t) && c in r ensures c.score >= x.score {
      assert HitOf(c) in t;
    }
  }

  /** The call site's `limit=10`. */
  const SearchLimit: nat := 10

  /** `pl.concat(result)` after the loop: every query's results, in order. */
  function Searches(queries: seq<CeebUniversity>, hs: seq<IpedsRow>, bm25: Bm25, limit: nat): seq<Candidate>
  {
    if queries == [] then []
    else
      var q := queries[|queries| - 1];
      Searches(queries[..|queries| - 1], hs, bm25, limit) + SearchIndex(hs, bm25, q.name, q.state, q.ceeb, limit)
  }

  /** The candidates of the fuzzy stage: `pl.concat` over one frame per
      query. Polars refuses to concatenate an empty list of frames, so
      with no query left the script raises, which is `None`. */
  function Candidates(queries: seq<CeebUniversity>, hs: seq<IpedsRow>, bm25: Bm25): (r: Option<seq<Candidate>>)
    ensures r.None? <==> queries == []
    ensures r.Some? ==> forall c :: c in r.value <==> exists q :: q in queries && FoundFor(hs, bm25, SearchLimit, q, c)
  {
    if queries == [] then None
    else
      SearchesRowsAll(queries, hs, bm25, SearchLimit);
      Some(Searches(queries, hs, bm25, SearchLimit))
  }

  /** The loop over the non-exact CEEB rows that appends each search's
      results to `result`, then `pl.concat(result)`. */
  method RetrieveCandidates(queries: seq<CeebUniversity>, hs: seq<IpedsRow>, bm25: Bm25) returns (result: Option<seq<Candidate>>)
    ensures result == Candidates(queries, hs, bm25)
  {
    var frames := [];
    var i := 0;
    while i < |queries|
      invariant 0 <= i <= |queries|
      invariant frames == Searches(queries[..i], hs, bm25, SearchLimit)
    {
      var q := queries[i];
      frames := frames + SearchIndex(hs, bm25, q.name, q.state, q.ceeb, SearchLimit);
      assert queries[..i + 1][..i] == queries[..i];
      i := i + 1;
    }
    assert queries[..i] == queries;
    if i == 0 {
      result := None;
    } else {
      result := Some(frames);
    }
  }

  /** c is one of the results of the search for q. */
  predicate FoundFor(hs: seq<IpedsRow>, bm25: Bm25, limit: nat, q: CeebUniversity, c: Candidate)
  {
    c in SearchIndex(hs, bm25, q.name, q.state, q.ceeb, limit)
  }

  /** A candidate is a result of the search for one of the queries. */
  lemma {:induction false} SearchesRows(queries: seq<CeebUniversity>, hs: seq<IpedsRow>, bm25: Bm25, limit: nat, c: Candidate)
    ensures c in Searches(queries, hs, bm25, limit) <==> exists q :: q in queries && FoundFor(hs, bm25, limit, q, c)
    decreases |queries|
  {
    if queries != [] {
      var n := |queries| - 1;
      var init, last := queries[..n], queries[n];
      SearchesRows(init, hs, bm25, limit, c);
      InitLast(queries);
      assert c in Searches(queries, hs, bm25, limit) <==>
        c in Searches(init, hs, bm25, limit) || FoundFor(hs, bm25, limit, last, c);
    }
  }

  lemma SearchesRowsAll(queries: seq<CeebUniversity>, hs: seq<IpedsRow>, bm25: Bm25, limit: nat)
    ensures forall c :: c in Searches(queries, hs, bm25, limit) <==> exists q :: q in queries && FoundFor(hs, bm25, limit, q, c)
  {
    forall c ensures c in Searches(queries, hs, bm25, limit) <==> exists q :: q in queries && FoundFor(hs, bm25, limit, q, c) {
      SearchesRows(queries, hs, bm25, limit, c);
    }
  }

  /** When the scorer gives NULL to every key outside the index, every
      candidate is an indexed IPEDS id; with the index of `IndexTable`, no
      candidate comes from a single-campus exact match. */
  lemma CandidatesIndexed(queries: seq<CeebUniversity>, hs: seq<IpedsRow>, bm25: Bm25, index: seq<IpedsRow>, c: Candidate)
    requires forall k, q :: bm25(k, q).Some? ==> exists h :: h in index && h.ipeds == k
    requires c in Searches(queries, hs, bm25, SearchLimit)
    ensures exists h :: h in index && h.ipeds == c.row.ipeds
  {
    SearchesRows(queries, hs, bm25, SearchLimit, c);
    var q :| q in queries && FoundFor(hs, bm25, SearchLimit, q, c);
    SearchIndexRows(hs, bm25, q.name, q.state, q.ceeb, SearchLimit);
    assert bm25(c.row.ipeds, q.name).Some?;
  }

  // ---------------------------------------------------------------------
  // scores

  /** Python's `max` of four numbers. */
  function Max4(a: real, b: real, c: real, d: real): (m: real)
    ensures m >= a && m >= b && m >= c && m >= d
    ensures m == a || m == b || m == c || m == d
  {
    var ab := if a >= b then a else b;
    var cd := if c >= d then c else d;
    if ab >= cd then ab else cd
  }

  /** polars' `a + " " + b` on two string columns: NULL when either is. */
  function WithCity(a: Option<string>, city: Option<string>): Option<string>
  {
    if a.Some? && city.Some? then Some(a.value + " " + city.value) else None
  }

  /** The four pairs both scores compare: `search_name` or
      `search_name_city` against `name` or `name_city`, where both augmented
      columns append the CANDIDATE's city. */
  function Combos(searchName: Option<string>, name: Option<string>, city: Option<string>): (ps: seq<(Option<string>, Option<string>)>)
    ensures |ps| == 4
  {
    var sc, nc := WithCity(searchName, city), WithCity(name, city);
    [(searchName, name), (searchName, nc), (sc, name), (sc, nc)]
  }

  /** The library answers (does not raise) on all four pairs. */
  predicate Answers<T>(f: (Option<string>, Option<string>) -> Option<T>, ps: seq<(Option<string>, Option<string>)>)
    requires |ps| == 4
  {
    forall k :: 0 <= k < 4 ==> f(ps[k].0, ps[k].1).Some?
  }

  /** `levenshtein_distance_names`: the largest of the four ratios, or
      `None` when one of the four calls raises. */
  function SimilarityRatio(lev: Ratio, searchName: Option<string>, name: Option<string>, city: Option<string>): (r: Option<real>)
    ensures r.Some? <==> Answers(lev, Combos(searchName, name, city))
  {
    var ps := Combos(searchName, name, city);
    var a, b, c, d := lev(ps[0].0, ps[0].1), lev(ps[1].0, ps[1].1), lev(ps[2].0, ps[2].1), lev(ps[3].0, ps[3].1);
    assert Answers(lev, ps) ==> a.Some? && b.Some? && c.Some? && d.Some?;
    if a.Some? && b.Some? && c.Some? && d.Some? then Some(Max4(a.value, b.value, c.value, d.value)) else None
  }

  /** `fuzz_ratio`: the largest token-sort ratio divided by 100, or `None`
      when one of the four calls raises. */
  function FuzzRatio(tsr: SortRatio, searchName: Option<string>, name: Option<string>, city: Option<string>): (r: Option<real>)
    ensures r.Some? <==> Answers(tsr, Combos(searchName, name, city))
  {
    var ps := Combos(searchName, name, city);
    var a, b, c, d := tsr(ps[0].0, ps[0].1), tsr(ps[1].0, ps[1].1), tsr(ps[2].0, ps[2].1), tsr(ps[3].0, ps[3].1);
    assert Answers(tsr, ps) ==> a.Some? && b.Some? && c.Some? && d.Some?;
    if a.Some? && b.Some? && c.Some? && d.Some? then
      Some(Max4(a.value as real, b.value as real, c.value as real, d.value as real) / 100.0)
    else None
  }

  /** The similarity exceeds a threshold exactly when one of the four
      combinations does. */
  lemma SimilarityAbove(lev: Ratio, searchName: Option<string>, name: Option<string>, city: Option<string>, t: real)
    requires SimilarityRatio(lev, searchName, name, city).Some?
    ensures var ps := Combos(searchName, name, city);
      SimilarityRatio(lev, searchName, name, city).value > t <==> exists k :: 0 <= k < 4 && lev(ps[k].0, ps[k].1).value > t
  {
    var ps := Combos(searchName, name, city);
    var m := SimilarityRatio(lev, searchName, name, city).value;
    if m > t {
      if m == lev(ps[0].0, ps[0].1).value { assert 0 < 4; }
      else if m == lev(ps[1].0, ps[1].1).value { assert 1 < 4; }
      else if m == lev(ps[2].0, ps[2].1).value { assert 2 < 4; }
      else { assert 3 < 4; }
    }
  }

  /** `fuzz_ratio > 0.95` exactly when some token-sort ratio is above 95. */
  lemma FuzzAbove(tsr: SortRatio, searchName: Option<string>, name: Option<string>, city: Option<string>)
    requires FuzzRatio(tsr, searchName, name, city).Some?
    ensures var ps := Combos(searchName, name, city);
      FuzzRatio(tsr, searchName, name, city).value > 0.95 <==> exists k :: 0 <= k < 4 && tsr(ps[k].0, ps[k].1).value > 95
  {
    var ps := Combos(searchName, name, city);
    var a, b, c, d := tsr(ps[0].0, ps[0].1).value, tsr(ps[1].0, ps[1].1).value, tsr(ps[2].0, ps[2].1).value, tsr(ps[3].0, ps[3].1).value;
    var m := Max4(a as real, b as real, c as real, d as real);
    assert FuzzRatio(tsr, searchName, name, city).value == m / 100.0;
    assert m / 100.0 > 0.95 <==> m > 95.0;
    if m > 95.0 {
      if m == a as real { assert 0 < 4; }
      else if m == b as real { assert 1 < 4; }
      else if m == c as real { assert 2 < 4; }
      else { assert 3 < 4; }
    }
  }

  /** A candidate with its two scores. */
  datatype Scored = Scored(c: Candidate, sim: real, fuzz: real)

  /** The two `map_elements` calls on one candidate: scoring fails exactly
      when one of the eight library calls raises. */
  function Score(lev: Ratio, tsr: SortRatio, c: Candidate): (r: Option<Scored>)
    ensures var ps := Combos(c.searchName, c.row.name, c.row.city);
      r.Some? <==> Answers(lev, ps) && Answers(tsr, ps)
    ensures r.Some? ==> r.value.c == c
    ensures r.Some? ==> Some(r.value.sim) == SimilarityRatio(lev, c.searchName, c.row.name, c.row.city)
    ensures r.Some? ==> Some(r.value.fuzz) == FuzzRatio(tsr, c.searchName, c.row.name, c.row.city)
  {
    match (SimilarityRatio(lev, c.searchName, c.row.name, c.row.city), FuzzRatio(tsr, c.searchName, c.row.name, c.row.city))
    case (Some(sim), Some(fuzz)) => Some(Scored(c, sim, fuzz))
    case _ => None
  }

  /** A library that raises exactly when one of its arguments is `None`. */
  ghost predicate NullStrict<T>(f: (Option<string>, Option<string>) -> Option<T>)
  {
    forall a, b :: f(a, b).Some? <==> a.Some? && b.Some?
  }

  /** A library that never raises. */
  ghost predicate NullTolerant<T>(f: (Option<string>, Option<string>) -> Option<T>)
  {
    forall a, b :: f(a, b).Some?
  }

  /** If both libraries raise exactly on `None`, a candidate is scored
      exactly when its search name, name and city are all non-NULL (a NULL
      city makes both augmented columns NULL). */
  lemma ScoreStrict(lev: Ratio, tsr: SortRatio, c: Candidate)
    requires NullStrict(lev) && NullStrict(tsr)
    ensures Score(lev, tsr, c).Some? <==> c.searchName.Some? && c.row.name.Some? && c.row.city.Some?
  {
    var ps := Combos(c.searchName, c.row.name, c.row.city);
    if !(c.searchName.Some? && c.row.name.Some? && c.row.city.Some?) {
      assert !lev(ps[3].0, ps[3].1).Some?;
    }
  }

  /** If neither library raises, every candidate is scored. */
  lemma ScoreTolerant(lev: Ratio, tsr: SortRatio, c: Candidate)
    requires NullTolerant(lev) && NullTolerant(tsr)
    ensures Score(lev, tsr, c).Some?
  {
  }

  /** `map_elements` over all candidates: one failure fails the whole
      pipeline. */
  function ScoreAll(lev: Ratio, tsr: SortRatio, cs: seq<Candidate>): (r: Option<seq<Scored>>)
    ensures r.Some? <==> forall c :: c in cs ==> Score(lev, tsr, c).Some?
    ensures r.Some? ==> |r.value| == |cs| && forall i :: 0 <= i < |cs| ==> Score(lev, tsr, cs[i]) == Some(r.value[i])
  {
    if cs == [] then Some([])
    else
      assert forall c :: c in cs <==> c == cs[0] || c in cs[1..];
      match (Score(lev, tsr, cs[0]), ScoreAll(lev, tsr, cs[1..]))
      case (Some(s), Some(rest)) => Some([s] + rest)
      case _ => None
  }

  /** The acceptance filter. */
  predicate Accepts(s: Scored)
  {
    (s.c.score > 8.0 || s.sim > 0.9 || s.fuzz > 0.95) && s.c.score > 4.0
  }

  /** In terms of the raw scores: a BM25 score above 4, and either above 8
      or one of the four combinations above 0.9 by Levenshtein ratio or
      above 95 by token-sort ratio. */
  lemma AcceptsIff(lev: Ratio, tsr: SortRatio, c: Candidate, s: Scored)
    requires Score(lev, tsr, c) == Some(s)
    ensures Accepts(s) <==>
      var ps := Combos(c.searchName, c.row.name, c.row.city);
      c.score > 4.0 &&
      (c.score > 8.0 ||
       (exists k :: 0 <= k < 4 && lev(ps[k].0, ps[k].1).value > 0.9) ||
       (exists k :: 0 <= k < 4 && tsr(ps[k].0, ps[k].1).value > 95))
  {
    SimilarityAbove(lev, c.searchName, c.row.name, c.row.city, 0.9);
    FuzzAbove(tsr, c.searchName, c.row.name, c.row.city);
  }

  function FuzzyMatches(scored: seq<Scored>): seq<Scored>
  {
    Where(Accepts, scored)
  }

  // ---------------------------------------------------------------------
  // one winner per IPEDS id

  /** The grouping key of `group_by("ipeds")`; NULL forms a group too. */
  function IpedsKey(s: Scored): Option<string>
  {
    s.c.row.ipeds
  }

  function Keys(s: seq<Scored>): set<Option<string>>
  {
    set x | x in s :: IpedsKey(x)
  }

  /** a comes no later than b in the sort by `match_score` then
      `similarity_ratio`, both descending. */
  predicate AtLeast(a: Scored, b: Scored)
  {
    a.c.score > b.c.score || (a.c.score == b.c.score && a.sim >= b.sim)
  }

  predicate DistinctKeys(s: seq<Scored>)
  {
    forall i, j :: 0 <= i < j < |s| ==> IpedsKey(s[i]) != IpedsKey(s[j])
  }

  lemma KeysCons(x: Scored, s: seq<Scored>)
    ensures Keys([x] + s) == {IpedsKey(x)} + Keys(s)
    ensures forall y :: y in [x] + s <==> y == x || y in s
  {
    assert forall y :: y in [x] + s <==> y == x || y in s;
  }

  /** Adds x to a table with one row per key, keeping the better row for
      x's key. */
  function Upsert(bs: seq<Scored>, x: Scored): seq<Scored>
  {
    if bs == [] then [x]
    else if IpedsKey(bs[0]) == IpedsKey(x) then [if AtLeast(bs[0], x) then bs[0] else x] + bs[1..]
    else [bs[0]] + Upsert(bs[1..], x)
  }

  /** Upsert adds x's key and touches only the row for that key. */
  lemma {:induction false} UpsertRows(bs: seq<Scored>, x: Scored)
    ensures Keys(Upsert(bs, x)) == Keys(bs) + {IpedsKey(x)}
    ensures forall y :: y in Upsert(bs, x) ==> y in bs || y == x
    ensures forall y :: IpedsKey(y) != IpedsKey(x) ==> (y in Upsert(bs, x) <==> y in bs)
  {
    if bs != [] {
      KeysCons(bs[0], bs[1..]);
      if IpedsKey(bs[0]) == IpedsKey(x) {
        KeysCons(if AtLeast(bs[0], x) then bs[0] else x, bs[1..]);
      } else {
        UpsertRows(bs[1..], x);
        KeysCons(bs[0], Upsert(bs[1..], x));
      }
    }
  }

  /** Upsert keeps one row per key. */
  lemma {:induction false} UpsertDistinct(bs: seq<Scored>, x: Scored)
    requires DistinctKeys(bs)
    ensures DistinctKeys(Upsert(bs, x))
  {
    if bs != [] && IpedsKey(bs[0]) != IpedsKey(x) {
      var rest := Upsert(bs[1..], x);
      UpsertDistinct(bs[1..], x);
      UpsertRows(bs[1..], x);
      assert IpedsKey(bs[0]) !in Keys(rest) by {
        KeysCons(bs[0], bs[1..]);
        assert forall i :: 0 < i < |bs| ==> IpedsKey(bs[i]) != IpedsKey(bs[0]);
        assert forall y :: y in bs[1..] ==> IpedsKey(y) != IpedsKey(bs[0]);
      }
      forall j | 0 <= j < |rest| ensures IpedsKey(rest[j]) != IpedsKey(bs[0]) {
        assert rest[j] in rest;
      }
      assert ([bs[0]] + rest)[1..] == rest;
    }
  }

  /** The row Upsert keeps for x's key is at least as good as x and as the
      row it replaces. */
  lemma {:induction false} UpsertBest(bs: seq<Scored>, x: Scored)
    requires DistinctKeys(bs)
    ensures forall y :: y in Upsert(bs, x) && IpedsKey(y) == IpedsKey(x) ==>
      AtLeast(y, x) && forall b :: b in bs && IpedsKey(b) == IpedsKey(x) ==> AtLeast(y, b)
  {
    if bs != [] {
      KeysCons(bs[0], bs[1..]);
      if IpedsKey(bs[0]) == IpedsKey(x) {
        var w := if AtLeast(bs[0], x) then bs[0] else x;
        KeysCons(w, bs[1..]);
        assert forall b :: b in bs[1..] ==> IpedsKey(b) != IpedsKey(x) by {
          assert forall i :: 0 < i < |bs| ==> IpedsKey(bs[i]) != IpedsKey(bs[0]);
        }
      } else {
        UpsertBest(bs[1..], x);
        KeysCons(bs[0], Upsert(bs[1..], x));
      }
    }
  }

  lemma AtLeastTransitive(a: Scored, b: Scored, c: Scored)
    requires AtLeast(a, b) && AtLeast(b, c)
    ensures AtLeast(a, c)
  {
  }

  /** `fuzzy_matches.sort(ipeds, -match_score, -similarity_ratio)
      .group_by("ipeds").first()`: one row per IPEDS id among the rows, the
      best by (`match_score`, `similarity_ratio`). Which of two rows equal
      on both scores wins is not part of the model. */
  function BestFuzzyMatch(xs: seq<Scored>): (r: seq<Scored>)
    ensures DistinctKeys(r)
    ensures Keys(r) == Keys(xs)
    ensures forall y :: y in r ==> y in xs
    ensures forall y, x :: y in r && x in xs && IpedsKey(y) == IpedsKey(x) ==> AtLeast(y, x)
  {
    if xs == [] then []
    else
      var bs := BestFuzzyMatch(xs[1..]);
      var r := Upsert(bs, xs[0]);
      UpsertRows(bs, xs[0]);
      UpsertDistinct(bs, xs[0]);
      UpsertBest(bs, xs[0]);
      assert xs == [xs[0]] + xs[1..];
      KeysCons(xs[0], xs[1..]);
      BestStep(bs, xs[0], xs[1..], r);
      r
  }

  lemma BestStep(bs: seq<Scored>, x0: Scored, rest: seq<Scored>, r: seq<Scored>)
    requires Keys(bs) == Keys(rest)
    requires forall y, x :: y in bs && x in rest && IpedsKey(y) == IpedsKey(x) ==> AtLeast(y, x)
    requires forall y :: y in r && IpedsKey(y) != IpedsKey(x0) ==> y in bs
    requires forall y :: y in r && IpedsKey(y) == IpedsKey(x0) ==>
      AtLeast(y, x0) && forall b :: b in bs && IpedsKey(b) == IpedsKey(x0) ==> AtLeast(y, b)
    ensures forall y, x :: y in r && x in [x0] + rest && IpedsKey(y) == IpedsKey(x) ==> AtLeast(y, x)
  {
    forall y, x | y in r && x in [x0] + rest && IpedsKey(y) == IpedsKey(x) ensures AtLeast(y, x) {
      if IpedsKey(y) != IpedsKey(x0) {
        assert y in bs && x in rest;
      } else if x != x0 {
        assert x in rest;
        BestStepSameKey(bs, rest, x0, y, x);
      }
    }
  }

  /** The row kept for the new row's key beats every earlier row with that
      key, through the old winner for it. */
  lemma BestStepSameKey(bs: seq<Scored>, rest: seq<Scored>, x0: Scored, y: Scored, x: Scored)
    requires Keys(bs) == Keys(rest)
    requires forall y, x :: y in bs && x in rest && IpedsKey(y) == IpedsKey(x) ==> AtLeast(y, x)
    requires x in rest && IpedsKey(y) == IpedsKey(x0) == IpedsKey(x)
    requires forall b :: b in bs && IpedsKey(b) == IpedsKey(x0) ==> AtLeast(y, b)
    ensures AtLeast(y, x)
  {
    assert IpedsKey(x) in Keys(bs);
    var b :| b in bs && IpedsKey(b) == IpedsKey(x);
    AtLeastTransitive(y, b, x);
  }

  // ---------------------------------------------------------------------
  // the whole fuzzy stage

  /** From the exact matches to `best_fuzzy_match`: retrieval for every CEEB
      university without an exact match, both scores, the acceptance filter
      and one winner per IPEDS id. `None` when the script raises on the
      way: `pl.concat` gets no frames, or a library call raises while scoring. */
  function FuzzyStage(hd: seq<IpedsRow>, cu: seq<CeebUniversity>, bm25: Bm25, lev: Ratio, tsr: SortRatio): Option<seq<Scored>>
  {
    FuzzyFrom(Candidates(NonExactCeeb(cu, ExactMatches(hd, cu)), hd, bm25), lev, tsr)
  }

  /** The stage after retrieval: scores, acceptance, one winner per id. */
  function FuzzyFrom(cands: Option<seq<Candidate>>, lev: Ratio, tsr: SortRatio): (r: Option<seq<Scored>>)
    ensures r.None? <==> cands.None? || exists c :: c in cands.value && Score(lev, tsr, c).None?
  {
    match cands
    case None => None
    case Some(cs) =>
      match ScoreAll(lev, tsr, cs)
      case None => None
      case Some(scored) => Some(BestFuzzyMatch(FuzzyMatches(scored)))
  }

  /** Every fuzzy winner passed the acceptance rule with the scores of its
      candidate, and that candidate is a result of the search for a CEEB
      university that has no exact match. */
  lemma FuzzyStageRows(hd: seq<IpedsRow>, cu: seq<CeebUniversity>, bm25: Bm25, lev: Ratio, tsr: SortRatio,
                       best: seq<Scored>, y: Scored)
    requires FuzzyStage(hd, cu, bm25, lev, tsr) == Some(best) && y in best
    ensures Accepts(y) && Score(lev, tsr, y.c) == Some(y)
    ensures exists q :: q in NonExactCeeb(cu, ExactMatches(hd, cu)) && FoundFor(hd, bm25, SearchLimit, q, y.c)
    ensures y.c in Searches(NonExactCeeb(cu, ExactMatches(hd, cu)), hd, bm25, SearchLimit)
  {
    var queries := NonExactCeeb(cu, ExactMatches(hd, cu));
    var cs := Candidates(queries, hd, bm25).value;
    var scored := ScoreAll(lev, tsr, cs).value;
    assert best == BestFuzzyMatch(FuzzyMatches(scored));
    ScoredFrom(lev, tsr, cs, scored, y);
  }

  /** A scored row is the score of one of the candidates. */
  lemma ScoredFrom(lev: Ratio, tsr: SortRatio, cs: seq<Candidate>, scored: seq<Scored>, y: Scored)
    requires ScoreAll(lev, tsr, cs) == Some(scored) && y in BestFuzzyMatch(FuzzyMatches(scored))
    ensures Accepts(y) && y.c in cs && Score(lev, tsr, y.c) == Some(y)
  {
    assert y in FuzzyMatches(scored);
    var i :| 0 <= i < |scored| && scored[i] == y;
    assert Score(lev, tsr, cs[i]) == Some(y);
  }

  /** When every CEEB university has an exact match, no search runs and
      `pl.concat` raises. */
  lemma AllExactFails(hd: seq<IpedsRow>, cu: seq<CeebUniversity>, bm25: Bm25, lev: Ratio, tsr: SortRatio)
    requires forall c :: c in cu ==> exists h :: h in hd && SameNameState(h, c)
    ensures FuzzyStage(hd, cu, bm25, lev, tsr).None?
  {
    var queries := NonExactCeeb(cu, ExactMatches(hd, cu));
    if queries != [] {
      var c := queries[0];
      NonExactCeebRows(hd, cu, c);
      assert false;
    }
  }

  /** The stage fails exactly when no CEEB university is left for it, or
      one of the `Levenshtein.ratio` or `fuzz.token_sort_ratio` calls on a
      retrieved candidate raises. */
  lemma FuzzyStageFails(hd: seq<IpedsRow>, cu: seq<CeebUniversity>, bm25: Bm25, lev: Ratio, tsr: SortRatio)
    ensures FuzzyStage(hd, cu, bm25, lev, tsr).None? <==>
      || NonExactCeeb(cu, ExactMatches(hd, cu)) == []
      || exists q, c :: q in NonExactCeeb(cu, ExactMatches(hd, cu)) && FoundFor(hd, bm25, SearchLimit, q, c) &&
           Score(lev, tsr, c).None?
  {
    var queries := NonExactCeeb(cu, ExactMatches(hd, cu));
    CandidatesFail(queries, hd, bm25, lev, tsr);
  }

  /** If both libraries raise exactly on `None`: the stage raises exactly
      when no CEEB university is left, or a retrieved candidate has a NULL
      search name, name or city. */
  lemma FuzzyStageStrict(hd: seq<IpedsRow>, cu: seq<CeebUniversity>, bm25: Bm25, lev: Ratio, tsr: SortRatio)
    requires NullStrict(lev) && NullStrict(tsr)
    ensures FuzzyStage(hd, cu, bm25, lev, tsr).None? <==>
      || NonExactCeeb(cu, ExactMatches(hd, cu)) == []
      || exists q, c :: q in NonExactCeeb(cu, ExactMatches(hd, cu)) && FoundFor(hd, bm25, SearchLimit, q, c) &&
           (c.searchName.None? || c.row.name.None? || c.row.city.None?)
  {
    FuzzyStageFails(hd, cu, bm25, lev, tsr);
    forall c: Candidate ensures Score(lev, tsr, c).None? <==> (c.searchName.None? || c.row.name.None? || c.row.city.None?) {
      ScoreStrict(lev, tsr, c);
    }
  }

  /** If neither library raises, the stage raises exactly when no CEEB
      university is left for it. */
  lemma FuzzyStageTolerant(hd: seq<IpedsRow>, cu: seq<CeebUniversity>, bm25: Bm25, lev: Ratio, tsr: SortRatio)
    requires NullTolerant(lev) && NullTolerant(tsr)
    ensures FuzzyStage(hd, cu, bm25, lev, tsr).None? <==> NonExactCeeb(cu, ExactMatches(hd, cu)) == []
  {
    FuzzyStageFails(hd, cu, bm25, lev, tsr);
    forall c: Candidate ensures Score(lev, tsr, c).Some? {
      ScoreTolerant(lev, tsr, c);
    }
  }

  lemma CandidatesFail(queries: seq<CeebUniversity>, hd: seq<IpedsRow>, bm25: Bm25, lev: Ratio, tsr: SortRatio)
    ensures FuzzyFrom(Candidates(queries, hd, bm25), lev, tsr).None? <==>
      || queries == []
      || exists q, c :: q in queries && FoundFor(hd, bm25, SearchLimit, q, c) && Score(lev, tsr, c).None?
  {
    var cands := Candidates(queries, hd, bm25);
    if queries != [] {
      if exists q, c :: q in queries && FoundFor(hd, bm25, SearchLimit, q, c) && Score(lev, tsr, c).None? {
        var q, c :| q in queries && FoundFor(hd, bm25, SearchLimit, q, c) && Score(lev, tsr, c).None?;
        assert c in cands.value;
      }
      if FuzzyFrom(cands, lev, tsr).None? {
        var c :| c in cands.value && Score(lev, tsr, c).None?;
        var q :| q in queries && FoundFor(hd, bm25, SearchLimit, q, c);
      }
    }
  }
}
