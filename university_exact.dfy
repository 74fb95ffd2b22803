/** The exact stage of crosswalking/universities.py: the inner join of the
    IPEDS directory (`ipeds_hd`) with the CEEB university list on
    case-folded name and state, the two anti-joins that leave the unmatched
    rows of each side, the split of the exact matches by `multicampus`, and
    the table the full-text index is built over. */
module UniversityExact {
  import opened Sql
  import opened Text

  /** A row of `ipeds_hd`. */
  datatype IpedsRow = IpedsRow(
    ipeds: Option<string>, name: Option<string>, city: Option<string>,
    state: Option<string>, multicampus: Option<bool>)

  /** A row of `ceeb_university`. */
  datatype CeebUniversity = CeebUniversity(ceeb: Option<string>, name: Option<string>, state: Option<string>)

  /** A row of `exact_matches`: the IPEDS row and the CEEB row it joined. */
  datatype ExactPair = ExactPair(h: IpedsRow, c: CeebUniversity)

  /** SQL `lower()`, which keeps NULL. */
  function LowerName(name: Option<string>): (r: Option<string>)
    ensures r.Some? <==> name.Some?
  {
    match name
    case None => None
    case Some(s) => Some(Lower(s))
  }

  /** `lower(a.name) = lower(b.name) and a.state = b.state`. */
  predicate SameNameState(h: IpedsRow, c: CeebUniversity)
  {
    SqlEq(LowerName(h.name), LowerName(c.name)) && SqlEq(h.state, c.state)
  }

  /** The CEEB rows that h joins with. */
  function PartnersOf(h: IpedsRow, cs: seq<CeebUniversity>): (r: seq<ExactPair>)
    ensures forall e :: e in r <==> e.h == h && e.c in cs && SameNameState(h, e.c)
    ensures forall c :: multiset(r)[ExactPair(h, c)] == if SameNameState(h, c) then multiset(cs)[c] else 0
  {
    if cs == [] then []
    else
      var rest := PartnersOf(h, cs[1..]);
      assert cs == [cs[0]] + cs[1..];
      assert forall c :: c in cs <==> c == cs[0] || c in cs[1..];
      if SameNameState(h, cs[0]) then [ExactPair(h, cs[0])] + rest else rest
  }

  /** `ipeds_hd a inner join ceeb_university b on (lower(a.name) =
      lower(b.name) and a.state = b.state)`. */
  function ExactMatches(hs: seq<IpedsRow>, cs: seq<CeebUniversity>): (r: seq<ExactPair>)
    ensures forall e :: e in r <==> e.h in hs && e.c in cs && SameNameState(e.h, e.c)
  {
    if hs == [] then []
    else
      assert forall h :: h in hs <==> h == hs[0] || h in hs[1..];
      PartnersOf(hs[0], cs) + ExactMatches(hs[1..], cs)
  }

  /** No uniqueness filter: a joined pair occurs once for every copy of its
      IPEDS row times every copy of its CEEB row, so one record can sit in
      several exact matches. */
  lemma {:induction false} ExactMultiplicity(hs: seq<IpedsRow>, cs: seq<CeebUniversity>, h: IpedsRow, c: CeebUniversity)
    requires SameNameState(h, c)
    ensures multiset(ExactMatches(hs, cs))[ExactPair(h, c)] == multiset(hs)[h] * multiset(cs)[c]
  {
    if hs != [] {
      CountStep(hs, cs, h, c);
      ExactMultiplicity(hs[1..], cs, h, c);
      if hs[0] == h {
        OneMore(multiset(hs[1..])[h], multiset(cs)[c]);
      }
    }
  }

  /** The first IPEDS row's contribution to the exact matches. */
  lemma CountStep(hs: seq<IpedsRow>, cs: seq<CeebUniversity>, h: IpedsRow, c: CeebUniversity)
    requires hs != [] && SameNameState(h, c)
    ensures multiset(ExactMatches(hs, cs))[ExactPair(h, c)] ==
      (if hs[0] == h then multiset(cs)[c] else 0) + multiset(ExactMatches(hs[1..], cs))[ExactPair(h, c)]
    ensures multiset(hs)[h] == (if hs[0] == h then 1 else 0) + multiset(hs[1..])[h]
  {
    assert hs == [hs[0]] + hs[1..];
    assert multiset(PartnersOf(hs[0], cs))[ExactPair(h, c)] == if hs[0] == h then multiset(cs)[c] else 0;
  }

  lemma OneMore(k: nat, m: nat)
    ensures (1 + k) * m == m + k * m
  {
  }

  /** The anti-join condition against `exact_matches`. Both name columns of
      an exact match agree once lower-cased, so it is stated on either. */
  predicate SharesNameState(e: ExactPair, name: Option<string>, state: Option<string>)
  {
    SqlEq(LowerName(e.h.name), LowerName(name)) && SqlEq(e.h.state, state)
  }

  lemma ExactSidesAgree(hs: seq<IpedsRow>, cs: seq<CeebUniversity>, e: ExactPair)
    requires e in ExactMatches(hs, cs)
    ensures LowerName(e.h.name) == LowerName(e.c.name) && e.h.state == e.c.state
  {
  }

  /** `non_exact_ipeds`. */
  function NonExactIpeds(hs: seq<IpedsRow>, exact: seq<ExactPair>): (r: seq<IpedsRow>)
    ensures forall h :: h in r <==> h in hs && forall e :: e in exact ==> !SharesNameState(e, h.name, h.state)
  {
    Where((h: IpedsRow) => forall e :: e in exact ==> !SharesNameState(e, h.name, h.state), hs)
  }

  /** `non_exact_ceeb`. */
  function NonExactCeeb(cs: seq<CeebUniversity>, exact: seq<ExactPair>): (r: seq<CeebUniversity>)
    ensures forall c :: c in r <==> c in cs && forall e :: e in exact ==> !SharesNameState(e, c.name, c.state)
  {
    Where((c: CeebUniversity) => forall e :: e in exact ==> !SharesNameState(e, c.name, c.state), cs)
  }

  /** A name and state that an exact match shares join both of its sides. */
  lemma SharedKeyJoins(e: ExactPair, name: Option<string>, state: Option<string>)
    requires SameNameState(e.h, e.c)
    ensures SharesNameState(e, name, state) ==>
      SqlEq(LowerName(name), LowerName(e.c.name)) && SqlEq(state, e.c.state) &&
      SqlEq(LowerName(e.h.name), LowerName(name)) && SqlEq(e.h.state, state)
  {
  }

  /** An IPEDS row is left over exactly when no CEEB row has its case-folded
      name and its state. */
  lemma NonExactIpedsRows(hs: seq<IpedsRow>, cs: seq<CeebUniversity>, h: IpedsRow)
    ensures h in NonExactIpeds(hs, ExactMatches(hs, cs)) <==> h in hs && forall c :: c in cs ==> !SameNameState(h, c)
  {
    var exact := ExactMatches(hs, cs);
    if h in hs && forall c :: c in cs ==> !SameNameState(h, c) {
      forall e | e in exact ensures !SharesNameState(e, h.name, h.state) {
        SharedKeyJoins(e, h.name, h.state);
      }
    }
    if h in hs && exists c :: c in cs && SameNameState(h, c) {
      var c :| c in cs && SameNameState(h, c);
      assert ExactPair(h, c) in exact;
    }
  }

  /** A CEEB row is left over exactly when no IPEDS row has its case-folded
      name and its state. */
  lemma NonExactCeebRows(hs: seq<IpedsRow>, cs: seq<CeebUniversity>, c: CeebUniversity)
    ensures c in NonExactCeeb(cs, ExactMatches(hs, cs)) <==> c in cs && forall h :: h in hs ==> !SameNameState(h, c)
  {
    var exact := ExactMatches(hs, cs);
    if c in cs && forall h :: h in hs ==> !SameNameState(h, c) {
      forall e | e in exact ensures !SharesNameState(e, c.name, c.state) {
        SharedKeyJoins(e, c.name, c.state);
      }
    }
    if c in cs && exists h :: h in hs && SameNameState(h, c) {
      var h :| h in hs && SameNameState(h, c);
      assert ExactPair(h, c) in exact;
    }
  }

  /** `filter(~multicampus)`: a NULL `multicampus` negates to NULL, which the
      filter drops. */
  predicate NoMulti(e: ExactPair)
  {
    e.h.multicampus == Some(false)
  }

  /** `filter(multicampus | multicampus.is_null())`. */
  predicate Multi(e: ExactPair)
  {
    e.h.multicampus == Some(true) || e.h.multicampus.None?
  }

  function ExactNoMulti(exact: seq<ExactPair>): seq<ExactPair>
  {
    Where(NoMulti, exact)
  }

  function ExactMulti(exact: seq<ExactPair>): seq<ExactPair>
  {
    Where(Multi, exact)
  }

  /** The two filters split the exact matches: each exact match is in
      exactly one of them, with its multiplicity. */
  lemma MultiSplit(exact: seq<ExactPair>)
    ensures multiset(ExactNoMulti(exact)) + multiset(ExactMulti(exact)) == multiset(exact)
    ensures forall e :: e in exact ==> (e in ExactNoMulti(exact) <==> e !in ExactMulti(exact))
  {
    forall e: ExactPair ensures Multi(e) == !NoMulti(e) {
      match e.h.multicampus
      case None =>
      case Some(b) =>
    }
    WhereSplit(NoMulti, Multi, exact);
  }

  /** `ipeds_multi_non_exact`: `ipeds_hd anti join exact_no_multi using
      (ipeds)`, the rows the full-text index is built over. */
  function IndexTable(hs: seq<IpedsRow>, noMulti: seq<ExactPair>): (r: seq<IpedsRow>)
    ensures forall h :: h in r <==> h in hs && forall e :: e in noMulti ==> !SqlEq(h.ipeds, e.h.ipeds)
  {
    Where((h: IpedsRow) => forall e :: e in noMulti ==> !SqlEq(h.ipeds, e.h.ipeds), hs)
  }

  /** The index leaves out every IPEDS id matched exactly to a single-campus
      institution, and keeps the rows of every other exact match: an
      exact match whose `multicampus` is true or NULL can be claimed again
      by the fuzzy stage. */
  lemma IndexedRows(hs: seq<IpedsRow>, cs: seq<CeebUniversity>, e: ExactPair)
    requires e in ExactMatches(hs, cs)
    ensures NoMulti(e) && e.h.ipeds.Some? ==>
      forall h :: h in IndexTable(hs, ExactNoMulti(ExactMatches(hs, cs))) ==> h.ipeds != e.h.ipeds
    ensures Multi(e) && (forall e' :: e' in ExactMatches(hs, cs) && NoMulti(e') ==> !SqlEq(e.h.ipeds, e'.h.ipeds)) ==>
      e.h in IndexTable(hs, ExactNoMulti(ExactMatches(hs, cs)))
  {
    var exact := ExactMatches(hs, cs);
    assert NoMulti(e) ==> e in ExactNoMulti(exact);
  }
}
