/** The consolidation query of crosswalking/universities.py
    (`university_crosswalk`): the fuzzy and the exact links, each tagged
    with its method, are full-joined with the CEEB universities on
    (`ceeb`, `state`), then with the IPEDS directory on (`ipeds`, `state`),
    then with the NSC list on `ipeds`.

    Every row of every stage is a `Row`: the link it carries, if any, the
    row of each table joined into it so far, and the key columns the
    `USING` joins have merged. */
module UniversityCrosswalk {
  import opened Sql
  import opened UniversityExact
  import opened UniversityFuzzy

  /** A row of `nsc_university`. */
  datatype NscRow = NscRow(nsc: Option<string>, ipeds: Option<string>, name: Option<string>)

  /** A row of the tagged union: `method`, `ceeb`, `ipeds`, `state`. */
  datatype Link = Link(matchMethod: string, ceeb: Option<string>, ipeds: Option<string>, state: Option<string>)

  datatype Row = Row(
    link: Option<Link>, ceebRow: Option<CeebUniversity>, ipedsRow: Option<IpedsRow>, nscRow: Option<NscRow>,
    ceeb: Option<string>, ipeds: Option<string>, state: Option<string>)

  /** The `method` column: NULL on a row that carries no link. */
  function Method(r: Row): Option<string>
  {
    if r.link.Some? then Some(r.link.value.matchMethod) else None
  }

  function FuzzyLink(s: Scored): Link
  {
    Link("fuzzy", s.c.ceeb, s.c.row.ipeds, s.c.row.state)
  }

  function ExactLink(e: ExactPair): Link
  {
    Link("exact", e.c.ceeb, e.h.ipeds, e.h.state)
  }

  /** `(select method: 'fuzzy', ... from best_fuzzy_match) union all by name
      (select method: 'exact', ... from exact_matches)`. */
  function Links(best: seq<Scored>, exact: seq<ExactPair>): seq<Link>
  {
    Map(FuzzyLink, best) + Map(ExactLink, exact)
  }

  /** Every link is a fuzzy winner tagged 'fuzzy' or an exact match tagged
      'exact', and every winner and every exact match has its link. */
  lemma LinksTagged(best: seq<Scored>, exact: seq<ExactPair>)
    ensures forall l :: l in Links(best, exact) ==> l.matchMethod == "fuzzy" || l.matchMethod == "exact"
    ensures forall l :: l in Links(best, exact) && l.matchMethod == "fuzzy" ==> exists s :: s in best && l == FuzzyLink(s)
    ensures forall l :: l in Links(best, exact) && l.matchMethod == "exact" ==> exists e :: e in exact && l == ExactLink(e)
    ensures forall s :: s in best ==> FuzzyLink(s) in Links(best, exact)
    ensures forall e :: e in exact ==> ExactLink(e) in Links(best, exact)
  {
    var fs, es := Map(FuzzyLink, best), Map(ExactLink, exact);
    assert forall l :: l in Links(best, exact) <==> l in fs || l in es;
  }

  lemma LinkTagged(best: seq<Scored>, exact: seq<ExactPair>, l: Link)
    requires l in Links(best, exact)
    ensures l.matchMethod == "fuzzy" || l.matchMethod == "exact"
  {
    assert l in Map(FuzzyLink, best) || l in Map(ExactLink, exact);
  }

  function LinkRow(l: Link): Row
  {
    Row(Some(l), None, None, None, l.ceeb, l.ipeds, l.state)
  }

  /** `USING (ceeb, state)`. */
  predicate OnCeebState(r: Row, c: CeebUniversity)
  {
    SqlEq(r.ceeb, c.ceeb) && SqlEq(r.state, c.state)
  }

  function MergeCeeb(x: Joined<Row, CeebUniversity>): Row
  {
    match x
    case Both(r, c) => r.(ceebRow := Some(c), ceeb := Coalesce(r.ceeb, c.ceeb), state := Coalesce(r.state, c.state))
    case LeftOnly(r) => r
    case RightOnly(c) => Row(None, Some(c), None, None, c.ceeb, None, c.state)
  }

  /** `... FULL JOIN ceeb_university USING (ceeb, state)`. */
  function JoinCeeb(rows: seq<Row>, cu: seq<CeebUniversity>): seq<Row>
  {
    Map(MergeCeeb, FullJoin(rows, cu, OnCeebState))
  }

  /** `USING (ipeds, state)`. */
  predicate OnIpedsState(r: Row, h: IpedsRow)
  {
    SqlEq(r.ipeds, h.ipeds) && SqlEq(r.state, h.state)
  }

  function MergeIpeds(x: Joined<Row, IpedsRow>): Row
  {
    match x
    case Both(r, h) => r.(ipedsRow := Some(h), ipeds := Coalesce(r.ipeds, h.ipeds), state := Coalesce(r.state, h.state))
    case LeftOnly(r) => r
    case RightOnly(h) => Row(None, None, Some(h), None, None, h.ipeds, h.state)
  }

  /** `... FULL JOIN ipeds_hd h USING (ipeds, state)`. */
  function JoinIpeds(rows: seq<Row>, hd: seq<IpedsRow>): seq<Row>
  {
    Map(MergeIpeds, FullJoin(rows, hd, OnIpedsState))
  }

  /** `USING (ipeds)`. */
  predicate OnIpeds(r: Row, n: NscRow)
  {
    SqlEq(r.ipeds, n.ipeds)
  }

  function MergeNsc(x: Joined<Row, NscRow>): Row
  {
    match x
    case Both(r, n) => r.(nscRow := Some(n), ipeds := Coalesce(r.ipeds, n.ipeds))
    case LeftOnly(r) => r
    case RightOnly(n) => Row(None, None, None, Some(n), None, n.ipeds, None)
  }

  /** `... FULL JOIN nsc_university n USING (ipeds)`. */
  function JoinNsc(rows: seq<Row>, nsc: seq<NscRow>): seq<Row>
  {
    Map(MergeNsc, FullJoin(rows, nsc, OnIpeds))
  }

  /** `university_crosswalk`. */
  function Crosswalk(best: seq<Scored>, exact: seq<ExactPair>, cu: seq<CeebUniversity>,
                     hd: seq<IpedsRow>, nsc: seq<NscRow>): seq<Row>
  {
    JoinNsc(JoinIpeds(JoinCeeb(Map(LinkRow, Links(best, exact)), cu), hd), nsc)
  }

  // ---------------------------------------------------------------------
  // what each join keeps

  /** b carries a's link and its rows from the earlier tables. */
  predicate Keeps(b: Row, a: Row)
  {
    b.link == a.link && b.ceebRow == a.ceebRow && b.ipedsRow == a.ipedsRow
  }

  /** The CEEB join keeps every row it is given, with its link. */
  lemma CeebJoinKeeps(rows: seq<Row>, cu: seq<CeebUniversity>, r: Row)
    requires r in rows
    ensures exists b :: b in JoinCeeb(rows, cu) && b.link == r.link
  {
    FullJoinRows(rows, cu, OnCeebState);
    var x :| x in FullJoin(rows, cu, OnCeebState) && !x.RightOnly? && x.l == r;
    assert MergeCeeb(x) in JoinCeeb(rows, cu);
  }

  /** The CEEB join keeps every CEEB university. */
  lemma CeebJoinHas(rows: seq<Row>, cu: seq<CeebUniversity>, c: CeebUniversity)
    requires c in cu
    ensures exists b :: b in JoinCeeb(rows, cu) && b.ceebRow == Some(c)
  {
    FullJoinRows(rows, cu, OnCeebState);
    var x :| x in FullJoin(rows, cu, OnCeebState) && !x.LeftOnly? && x.r == c;
    assert MergeCeeb(x) in JoinCeeb(rows, cu);
  }

  /** A CEEB university that no row joins gets a row of its own, without a
      link. */
  lemma CeebJoinAlone(rows: seq<Row>, cu: seq<CeebUniversity>, c: CeebUniversity)
    requires c in cu && forall r :: r in rows ==> !OnCeebState(r, c)
    ensures Row(None, Some(c), None, None, c.ceeb, None, c.state) in JoinCeeb(rows, cu)
  {
    FullJoinRows(rows, cu, OnCeebState);
    assert MergeCeeb(RightOnly(c)) in JoinCeeb(rows, cu);
  }

  /** After the CEEB join, a row with a link has the link's `ipeds` and
      `state`, and a row without one has no `ipeds`. */
  lemma JoinCeebKeys(rows: seq<Row>, cu: seq<CeebUniversity>)
    requires forall r :: r in rows ==> r.link.Some? && r.ipeds == r.link.value.ipeds && r.state == r.link.value.state
    ensures forall b :: b in JoinCeeb(rows, cu) ==>
      if b.link.Some? then b.link.value in Links0(rows) && b.ipeds == b.link.value.ipeds && b.state == b.link.value.state
      else b.ipeds.None? && b.ipedsRow.None?
  {
    forall b | b in JoinCeeb(rows, cu) ensures
      if b.link.Some? then b.link.value in Links0(rows) && b.ipeds == b.link.value.ipeds && b.state == b.link.value.state
      else b.ipeds.None? && b.ipedsRow.None?
    {
      var x :| x in FullJoin(rows, cu, OnCeebState) && b == MergeCeeb(x);
      FullJoinRows(rows, cu, OnCeebState);
      if !x.RightOnly? {
        assert x.l in rows;
        assert LinkOf(x.l) in Links0(rows);
      }
    }
  }

  function LinkOf(r: Row): Link
    requires r.link.Some?
  {
    r.link.value
  }

  /** The links the rows carry. */
  function Links0(rows: seq<Row>): set<Link>
  {
    set r | r in rows && r.link.Some? :: r.link.value
  }

  /** The IPEDS join keeps every row it is given, with its link and its
      CEEB row. */
  lemma IpedsJoinKeeps(rows: seq<Row>, hd: seq<IpedsRow>, r: Row)
    requires r in rows
    ensures exists b :: b in JoinIpeds(rows, hd) && b.link == r.link && b.ceebRow == r.ceebRow
  {
    FullJoinRows(rows, hd, OnIpedsState);
    var x :| x in FullJoin(rows, hd, OnIpedsState) && !x.RightOnly? && x.l == r;
    assert MergeIpeds(x) in JoinIpeds(rows, hd);
  }

  /** The IPEDS join keeps every IPEDS row. */
  lemma IpedsJoinHas(rows: seq<Row>, hd: seq<IpedsRow>, h: IpedsRow)
    requires h in hd
    ensures exists b :: b in JoinIpeds(rows, hd) && b.ipedsRow == Some(h)
  {
    FullJoinRows(rows, hd, OnIpedsState);
    var x :| x in FullJoin(rows, hd, OnIpedsState) && !x.LeftOnly? && x.r == h;
    assert MergeIpeds(x) in JoinIpeds(rows, hd);
  }

  /** An IPEDS row that no row joins gets a row of its own, without a link. */
  lemma IpedsJoinAlone(rows: seq<Row>, hd: seq<IpedsRow>, h: IpedsRow)
    requires h in hd && forall r :: r in rows ==> !OnIpedsState(r, h)
    ensures Row(None, None, Some(h), None, None, h.ipeds, h.state) in JoinIpeds(rows, hd)
  {
    FullJoinRows(rows, hd, OnIpedsState);
    assert MergeIpeds(RightOnly(h)) in JoinIpeds(rows, hd);
  }

  /** The NSC join keeps every row it is given, with its link, its CEEB row
      and its IPEDS row. */
  lemma NscJoinKeeps(rows: seq<Row>, nsc: seq<NscRow>, r: Row)
    requires r in rows
    ensures exists b :: b in JoinNsc(rows, nsc) && Keeps(b, r)
  {
    FullJoinRows(rows, nsc, OnIpeds);
    var x :| x in FullJoin(rows, nsc, OnIpeds) && !x.RightOnly? && x.l == r;
    assert MergeNsc(x) in JoinNsc(rows, nsc);
  }

  /** The NSC join keeps every NSC row. */
  lemma NscJoinHas(rows: seq<Row>, nsc: seq<NscRow>, n: NscRow)
    requires n in nsc
    ensures exists b :: b in JoinNsc(rows, nsc) && b.nscRow == Some(n)
  {
    FullJoinRows(rows, nsc, OnIpeds);
    var x :| x in FullJoin(rows, nsc, OnIpeds) && !x.LeftOnly? && x.r == n;
    assert MergeNsc(x) in JoinNsc(rows, nsc);
  }

  /** A row after the CEEB join reaches the crosswalk with its link and its
      CEEB row. */
  lemma ReachesEnd(s1: seq<Row>, hd: seq<IpedsRow>, nsc: seq<NscRow>, b1: Row)
    requires b1 in s1
    ensures exists r :: r in JoinNsc(JoinIpeds(s1, hd), nsc) && r.link == b1.link && r.ceebRow == b1.ceebRow
  {
    IpedsJoinKeeps(s1, hd, b1);
    var b2 :| b2 in JoinIpeds(s1, hd) && b2.link == b1.link && b2.ceebRow == b1.ceebRow;
    NscJoinKeeps(JoinIpeds(s1, hd), nsc, b2);
  }

  /** No join invents a link: a linked row of a join's output carries the
      link of one of its input rows. */
  lemma CeebJoinFrom(rows: seq<Row>, cu: seq<CeebUniversity>, b: Row)
    requires b in JoinCeeb(rows, cu) && b.link.Some?
    ensures exists r :: r in rows && r.link == b.link
  {
    FullJoinRows(rows, cu, OnCeebState);
    var x :| x in FullJoin(rows, cu, OnCeebState) && b == MergeCeeb(x);
    assert x.l in rows;
  }

  lemma IpedsJoinFrom(rows: seq<Row>, hd: seq<IpedsRow>, b: Row)
    requires b in JoinIpeds(rows, hd) && b.link.Some?
    ensures exists r :: r in rows && r.link == b.link
  {
    FullJoinRows(rows, hd, OnIpedsState);
    var x :| x in FullJoin(rows, hd, OnIpedsState) && b == MergeIpeds(x);
    assert x.l in rows;
  }

  lemma NscJoinFrom(rows: seq<Row>, nsc: seq<NscRow>, b: Row)
    requires b in JoinNsc(rows, nsc) && b.link.Some?
    ensures exists r :: r in rows && r.link == b.link
  {
    FullJoinRows(rows, nsc, OnIpeds);
    var x :| x in FullJoin(rows, nsc, OnIpeds) && b == MergeNsc(x);
    assert x.l in rows;
  }

  // ---------------------------------------------------------------------
  // the crosswalk

  /** A linked row of the crosswalk carries a link of the union, tagged
      'fuzzy' or 'exact'. */
  lemma CrosswalkLinkFrom(best: seq<Scored>, exact: seq<ExactPair>, cu: seq<CeebUniversity>, hd: seq<IpedsRow>, nsc: seq<NscRow>, r: Row)
    requires r in Crosswalk(best, exact, cu, hd, nsc) && r.link.Some?
    ensures r.link.value in Links(best, exact)
    ensures Method(r) == Some("fuzzy") || Method(r) == Some("exact")
  {
    var s0 := Map(LinkRow, Links(best, exact));
    var s1 := JoinCeeb(s0, cu);
    var s2 := JoinIpeds(s1, hd);
    NscJoinFrom(s2, nsc, r);
    var b2 :| b2 in s2 && b2.link == r.link;
    IpedsJoinFrom(s1, hd, b2);
    var b1 :| b1 in s1 && b1.link == r.link;
    CeebJoinFrom(s0, cu, b1);
    var b0 :| b0 in s0 && b0.link == r.link;
    var l :| l in Links(best, exact) && b0 == LinkRow(l);
    LinkTagged(best, exact, l);
  }

  /** The `method` column is NULL, 'fuzzy' or 'exact', and a tagged row
      carries a link of the union. */
  lemma CrosswalkMethods(best: seq<Scored>, exact: seq<ExactPair>, cu: seq<CeebUniversity>, hd: seq<IpedsRow>, nsc: seq<NscRow>)
    ensures forall r :: r in Crosswalk(best, exact, cu, hd, nsc) ==>
      Method(r) == None || Method(r) == Some("fuzzy") || Method(r) == Some("exact")
    ensures forall r :: r in Crosswalk(best, exact, cu, hd, nsc) && r.link.Some? ==> r.link.value in Links(best, exact)
  {
    forall r | r in Crosswalk(best, exact, cu, hd, nsc) && r.link.Some?
      ensures r.link.value in Links(best, exact) && (Method(r) == Some("fuzzy") || Method(r) == Some("exact"))
    {
      CrosswalkLinkFrom(best, exact, cu, hd, nsc, r);
    }
  }

  /** Every CEEB university, every IPEDS row, every NSC row and every link
      (with its tag) is in the crosswalk at least once. */
  lemma CrosswalkKeepsRows(best: seq<Scored>, exact: seq<ExactPair>, cu: seq<CeebUniversity>, hd: seq<IpedsRow>, nsc: seq<NscRow>)
    ensures forall c :: c in cu ==> exists r :: r in Crosswalk(best, exact, cu, hd, nsc) && r.ceebRow == Some(c)
    ensures forall h :: h in hd ==> exists r :: r in Crosswalk(best, exact, cu, hd, nsc) && r.ipedsRow == Some(h)
    ensures forall n :: n in nsc ==> exists r :: r in Crosswalk(best, exact, cu, hd, nsc) && r.nscRow == Some(n)
    ensures forall l :: l in Links(best, exact) ==>
      exists r :: r in Crosswalk(best, exact, cu, hd, nsc) && r.link == Some(l) && Method(r) == Some(l.matchMethod)
  {
    var s0 := Map(LinkRow, Links(best, exact));
    var s1 := JoinCeeb(s0, cu);
    var s2 := JoinIpeds(s1, hd);
    forall c | c in cu ensures exists r :: r in JoinNsc(s2, nsc) && r.ceebRow == Some(c) {
      CeebJoinHas(s0, cu, c);
      var b1 :| b1 in s1 && b1.ceebRow == Some(c);
      ReachesEnd(s1, hd, nsc, b1);
    }
    forall h | h in hd ensures exists r :: r in JoinNsc(s2, nsc) && r.ipedsRow == Some(h) {
      IpedsJoinHas(s1, hd, h);
      var b2 :| b2 in s2 && b2.ipedsRow == Some(h);
      NscJoinKeeps(s2, nsc, b2);
    }
    forall n | n in nsc ensures exists r :: r in JoinNsc(s2, nsc) && r.nscRow == Some(n) {
      NscJoinHas(s2, nsc, n);
    }
    forall l | l in Links(best, exact)
      ensures exists r :: r in JoinNsc(s2, nsc) && r.link == Some(l) && Method(r) == Some(l.matchMethod)
    {
      assert LinkRow(l) in s0;
      CeebJoinKeeps(s0, cu, LinkRow(l));
      var b1 :| b1 in s1 && b1.link == Some(l);
      ReachesEnd(s1, hd, nsc, b1);
    }
  }

  /** The links, as the rows the CEEB join starts from. */
  lemma LinkRows(links: seq<Link>)
    ensures forall r :: r in Map(LinkRow, links) ==>
      r.link.Some? && r.link.value in links && r.ceebRow.None? && r.ipedsRow.None? &&
      r.ceeb == r.link.value.ceeb && r.ipeds == r.link.value.ipeds && r.state == r.link.value.state
  {
    forall r | r in Map(LinkRow, links) ensures r.link.Some? && r.link.value in links {
      var l :| l in links && r == LinkRow(l);
    }
  }

  /** An unmatched CEEB university has a NULL `method`: when no link names
      its `ceeb` and `state`, it appears in a row without a link. */
  lemma UnmatchedCeebNull(best: seq<Scored>, exact: seq<ExactPair>, cu: seq<CeebUniversity>, hd: seq<IpedsRow>, nsc: seq<NscRow>, c: CeebUniversity)
    requires c in cu
    requires forall l :: l in Links(best, exact) ==> !(SqlEq(l.ceeb, c.ceeb) && SqlEq(l.state, c.state))
    ensures exists r :: r in Crosswalk(best, exact, cu, hd, nsc) && r.ceebRow == Some(c) && Method(r) == None
  {
    var s0 := Map(LinkRow, Links(best, exact));
    LinkRows(Links(best, exact));
    CeebJoinAlone(s0, cu, c);
    ReachesEnd(JoinCeeb(s0, cu), hd, nsc, Row(None, Some(c), None, None, c.ceeb, None, c.state));
  }

  /** An unmatched IPEDS row has a NULL `method`: when no link names its
      `ipeds` and `state`, it appears in a row without a link. */
  lemma UnmatchedIpedsNull(best: seq<Scored>, exact: seq<ExactPair>, cu: seq<CeebUniversity>, hd: seq<IpedsRow>, nsc: seq<NscRow>, h: IpedsRow)
    requires h in hd
    requires forall l :: l in Links(best, exact) ==> !(SqlEq(l.ipeds, h.ipeds) && SqlEq(l.state, h.state))
    ensures exists r :: r in Crosswalk(best, exact, cu, hd, nsc) && r.ipedsRow == Some(h) && Method(r) == None
  {
    var links := Links(best, exact);
    var s0 := Map(LinkRow, links);
    var s1 := JoinCeeb(s0, cu);
    LinkRows(links);
    JoinCeebKeys(s0, cu);
    forall b | b in s1 ensures !OnIpedsState(b, h) {
      if b.link.Some? {
        var r :| r in s0 && r.link == b.link;
      }
    }
    IpedsJoinAlone(s1, hd, h);
    NscJoinKeeps(JoinIpeds(s1, hd), nsc, Row(None, None, Some(h), None, None, h.ipeds, h.state));
  }

  /** After the IPEDS join a linked row still has its link's `ipeds`: a row
      joins an IPEDS row only on an equal, non-NULL `ipeds`. */
  lemma JoinIpedsKeys(rows: seq<Row>, hd: seq<IpedsRow>)
    requires forall r :: r in rows && r.link.Some? ==> r.ipeds == r.link.value.ipeds
    ensures forall b :: b in JoinIpeds(rows, hd) && b.link.Some? ==> b.ipeds == b.link.value.ipeds
  {
    FullJoinRows(rows, hd, OnIpedsState);
    forall b | b in JoinIpeds(rows, hd) && b.link.Some? ensures b.ipeds == b.link.value.ipeds {
      var x :| x in FullJoin(rows, hd, OnIpedsState) && b == MergeIpeds(x);
      assert x.l in rows;
    }
  }

  /** An NSC row that joins no linked row reaches the crosswalk in a row
      without a link. */
  lemma NscJoinUnlinked(rows: seq<Row>, nsc: seq<NscRow>, n: NscRow)
    requires n in nsc && forall r :: r in rows && r.link.Some? ==> !OnIpeds(r, n)
    ensures exists b :: b in JoinNsc(rows, nsc) && b.nscRow == Some(n) && b.link.None?
  {
    FullJoinRows(rows, nsc, OnIpeds);
    var x :| x in FullJoin(rows, nsc, OnIpeds) && !x.LeftOnly? && x.r == n;
    assert MergeNsc(x) in JoinNsc(rows, nsc);
  }

  /** An unmatched NSC row has a NULL `method`: when no link names its
      `ipeds`, it appears in a row without a link. */
  lemma UnmatchedNscNull(best: seq<Scored>, exact: seq<ExactPair>, cu: seq<CeebUniversity>, hd: seq<IpedsRow>, nsc: seq<NscRow>, n: NscRow)
    requires n in nsc
    requires forall l :: l in Links(best, exact) ==> !SqlEq(l.ipeds, n.ipeds)
    ensures exists r :: r in Crosswalk(best, exact, cu, hd, nsc) && r.nscRow == Some(n) && Method(r) == None
  {
    var links := Links(best, exact);
    var s0 := Map(LinkRow, links);
    var s1 := JoinCeeb(s0, cu);
    var s2 := JoinIpeds(s1, hd);
    LinkRows(links);
    JoinCeebKeys(s0, cu);
    JoinIpedsKeys(s1, hd);
    forall b | b in s2 && b.link.Some? ensures !OnIpeds(b, n) {
      IpedsJoinFrom(s1, hd, b);
      var r :| r in s1 && r.link == b.link;
      var r0 :| r0 in s0 && r0.link.Some? && r0.link.value == r.link.value;
    }
    NscJoinUnlinked(s2, nsc, n);
  }

  /** No fuzzy link re-uses an IPEDS id matched exactly to a single-campus
      institution. This rests on what the full-text index promises: the
      BM25 scorer gives NULL to every key outside `ipeds_multi_non_exact`,
      the table the index is built over. */
  lemma FuzzyAvoidsSingleCampus(hd: seq<IpedsRow>, cu: seq<CeebUniversity>, bm25: Bm25, lev: Ratio, tsr: SortRatio,
                                best: seq<Scored>, l: Link, e: ExactPair)
    requires forall k, q :: bm25(k, q).Some? ==>
      exists h :: h in IndexTable(hd, ExactNoMulti(ExactMatches(hd, cu))) && h.ipeds == k
    requires FuzzyStage(hd, cu, bm25, lev, tsr) == Some(best)
    requires l in Links(best, ExactMatches(hd, cu)) && l.matchMethod == "fuzzy"
    requires e in ExactMatches(hd, cu) && NoMulti(e)
    ensures !SqlEq(l.ipeds, e.h.ipeds)
  {
    var exact := ExactMatches(hd, cu);
    var index := IndexTable(hd, ExactNoMulti(exact));
    LinksTagged(best, exact);
    var y :| y in best && l == FuzzyLink(y);
    FuzzyStageRows(hd, cu, bm25, lev, tsr, best, y);
    CandidatesIndexed(NonExactCeeb(cu, exact), hd, bm25, index, y.c);
    var h :| h in index && h.ipeds == y.c.row.ipeds;
    assert e in ExactNoMulti(exact);
  }

  /** The script from the tables to `university_crosswalk`: `None` when the
      fuzzy stage raises. */
  function Pipeline(hd: seq<IpedsRow>, cu: seq<CeebUniversity>, nsc: seq<NscRow>, bm25: Bm25, lev: Ratio, tsr: SortRatio): Option<seq<Row>>
  {
    match FuzzyStage(hd, cu, bm25, lev, tsr)
    case None => None
    case Some(best) => Some(Crosswalk(best, ExactMatches(hd, cu), cu, hd, nsc))
  }

  /** When every CEEB university has an exact match the script stops before
      the crosswalk is built. */
  lemma PipelineAllExactFails(hd: seq<IpedsRow>, cu: seq<CeebUniversity>, nsc: seq<NscRow>, bm25: Bm25, lev: Ratio, tsr: SortRatio)
    requires forall c :: c in cu ==> exists h :: h in hd && SameNameState(h, c)
    ensures Pipeline(hd, cu, nsc, bm25, lev, tsr).None?
  {
    AllExactFails(hd, cu, bm25, lev, tsr);
  }

  /** End to end: a crosswalk row tagged 'fuzzy' never carries the IPEDS id
      of an exact match to a single-campus institution. */
  lemma PipelineFuzzyAvoidsSingleCampus(hd: seq<IpedsRow>, cu: seq<CeebUniversity>, nsc: seq<NscRow>, bm25: Bm25,
                                        lev: Ratio, tsr: SortRatio, rows: seq<Row>, r: Row, e: ExactPair)
    requires forall k, q :: bm25(k, q).Some? ==>
      exists h :: h in IndexTable(hd, ExactNoMulti(ExactMatches(hd, cu))) && h.ipeds == k
    requires Pipeline(hd, cu, nsc, bm25, lev, tsr) == Some(rows)
    requires r in rows && Method(r) == Some("fuzzy")
    requires e in ExactMatches(hd, cu) && NoMulti(e)
    ensures !SqlEq(r.link.value.ipeds, e.h.ipeds)
  {
    var best := FuzzyStage(hd, cu, bm25, lev, tsr).value;
    CrosswalkLinkFrom(best, ExactMatches(hd, cu), cu, hd, nsc, r);
    FuzzyAvoidsSingleCampus(hd, cu, bm25, lev, tsr, best, r.link.value, e);
  }
}
