/** The K-12 exact-match cascade of crosswalking/schools.py
    (`iterative_exact_matching`, `iterate`, `non_matching`).

    Six rounds each join the current CEEB and NCES residuals with an inner
    join `USING` a set of location keys, keep the joined rows whose
    `partition_by` values occur exactly once (`QUALIFY count(*) OVER
    (PARTITION BY ...) = 1`), and pass on the residuals: the round's inputs
    anti-joined against its matches by `ceeb` and by `nces`. The result is
    the union of the six rounds' matches, each tagged with its strength.

    Tables are bags of rows, written as sequences; row order is not part of
    the model. A NULL column is `None`, and NULL never equals anything in a
    join or anti-join condition (`SqlEq`). */
module SchoolCascade {
  import opened Sql

  /** The location columns that the rounds join on. */
  datatype Field = Name | Address | City | State | StateAbbr | Zip

  const AllFields: seq<Field> := [Name, Address, City, State, StateAbbr, Zip]

  /** The column name of a field, as it appears in the SQL. */
  function FieldName(f: Field): string
  {
    match f
    case Name => "name"
    case Address => "address"
    case City => "city"
    case State => "state"
    case StateAbbr => "state_abbr"
    case Zip => "zip"
  }

  datatype Attrs = Attrs(
    name: Option<string>, address: Option<string>, city: Option<string>,
    state: Option<string>, stateAbbr: Option<string>, zip: Option<string>)
  {
    function Get(f: Field): Option<string>
    {
      match f
      case Name => name
      case Address => address
      case City => city
      case State => state
      case StateAbbr => stateAbbr
      case Zip => zip
    }
  }

  /** A row of `schools.ceeb`: a CEEB code, the NCES id it is already
      linked to (if any), and its location columns. */
  datatype CeebSchool = CeebSchool(ceeb: Option<string>, nces: Option<string>, attrs: Attrs)

  /** A CEEB row as the rounds see it: the `nces` column is dropped. */
  datatype CeebRow = CeebRow(ceeb: Option<string>, attrs: Attrs)

  /** A row of `schools.nces`. */
  datatype NcesSchool = NcesSchool(nces: Option<string>, attrs: Attrs)

  /** A row of the inner join: the CEEB row and the NCES row it joined. */
  datatype Pair = Pair(c: CeebRow, n: NcesSchool)

  /** One call of `iterate`: the round id, the CEEB columns it excludes
      from the output, the join keys and the window's partition keys. */
  datatype Rule = Rule(id: string, excluding: seq<Field>, using: seq<Field>, partitionBy: seq<Field>)

  const Round1 := Rule("1", [], [Name, Address, City, State, StateAbbr, Zip], [Address, City, State, StateAbbr, Zip])
  const Round2 := Rule("2", [Name], [Address, City, State, StateAbbr, Zip], [Address, City, State, StateAbbr, Zip])
  const Round3 := Rule("3", [Address], [Name, City, State, StateAbbr, Zip], [Name, City, State, StateAbbr, Zip])
  const Round4 := Rule("4", [Address, Zip], [Name, City, State, StateAbbr], [Name, City, State, StateAbbr])
  const Round5 := Rule("5", [Address, City], [Name, State, StateAbbr, Zip], [Name, State, StateAbbr, Zip])
  const Round6 := Rule("6", [Address, City, Zip], [Name, State, StateAbbr], [Name, State, StateAbbr])

  const Rounds: seq<Rule> := [Round1, Round2, Round3, Round4, Round5, Round6]

  // ---------------------------------------------------------------------
  // one round

  /** The `USING` condition: equal and non-NULL on every join key. */
  predicate Agrees(c: CeebRow, n: NcesSchool, using: seq<Field>)
  {
    forall f :: f in using ==> SqlEq(c.attrs.Get(f), n.attrs.Get(f))
  }

  /** The NCES rows that the CEEB row c joins with. */
  function JoinOne(c: CeebRow, ns: seq<NcesSchool>, using: seq<Field>): (js: seq<Pair>)
    ensures forall p :: p in js <==> p.c == c && p.n in ns && Agrees(c, p.n, using)
  {
    if ns == [] then []
    else
      var rest := JoinOne(c, ns[1..], using);
      assert forall n :: n in ns <==> n == ns[0] || n in ns[1..];
      if Agrees(c, ns[0], using) then [Pair(c, ns[0])] + rest else rest
  }

  /** `ceeb INNER JOIN nces USING (using)`. */
  function Join(cs: seq<CeebRow>, ns: seq<NcesSchool>, using: seq<Field>): (js: seq<Pair>)
    ensures forall p :: p in js <==> p.c in cs && p.n in ns && Agrees(p.c, p.n, using)
  {
    if cs == [] then []
    else
      assert forall c :: c in cs <==> c == cs[0] || c in cs[1..];
      JoinOne(cs[0], ns, using) + Join(cs[1..], ns, using)
  }

  /** c joins each copy of a matching NCES row once. */
  lemma {:induction false} JoinOneMultiplicity(c: CeebRow, ns: seq<NcesSchool>, using: seq<Field>, p: Pair)
    ensures multiset(JoinOne(c, ns, using))[p] == if p.c == c && Agrees(c, p.n, using) then multiset(ns)[p.n] else 0
  {
    if ns != [] {
      assert ns == [ns[0]] + ns[1..];
      JoinOneMultiplicity(c, ns[1..], using, p);
    }
  }

  /** A joined row occurs once for every copy of its CEEB row and every
      copy of its NCES row, so duplicated input rows give duplicated
      joined rows, which the `QUALIFY` window counts. */
  lemma {:induction false} JoinMultiplicity(cs: seq<CeebRow>, ns: seq<NcesSchool>, using: seq<Field>, p: Pair)
    ensures multiset(Join(cs, ns, using))[p] == if Agrees(p.c, p.n, using) then multiset(cs)[p.c] * multiset(ns)[p.n] else 0
  {
    if cs != [] {
      var k, m := multiset(cs[1..])[p.c], multiset(ns)[p.n];
      assert multiset(cs)[p.c] == (if cs[0] == p.c then 1 else 0) + k by {
        assert cs == [cs[0]] + cs[1..];
      }
      assert multiset(Join(cs, ns, using))[p] ==
        multiset(JoinOne(cs[0], ns, using))[p] + multiset(Join(cs[1..], ns, using))[p];
      JoinOneMultiplicity(cs[0], ns, using, p);
      JoinMultiplicity(cs[1..], ns, using, p);
      JoinStep(k, m, cs[0] == p.c);
    }
  }

  lemma JoinStep(k: nat, m: nat, first: bool)
    ensures (if first then m else 0) + k * m == ((if first then 1 else 0) + k) * m
  {
  }

  /** A joined row's `partition_by` values. Every key column other than the
      CEEB copies that `EXCLUDE` drops comes from the NCES side. */
  function Key(p: Pair, keys: seq<Field>): seq<Option<string>>
  {
    seq(|keys|, k requires 0 <= k < |keys| => p.n.attrs.Get(keys[k]))
  }

  /** `count(*) OVER (PARTITION BY keys)` for the partition with values `key`. */
  function KeyCount(js: seq<Pair>, keys: seq<Field>, key: seq<Option<string>>): nat
  {
    if js == [] then 0 else (if Key(js[0], keys) == key then 1 else 0) + KeyCount(js[1..], keys, key)
  }

  /** The rows of js whose partition, counted over all of `all`, has one row. */
  function QualifyFrom(js: seq<Pair>, all: seq<Pair>, keys: seq<Field>): (r: seq<Pair>)
    ensures forall p :: p in r <==> p in js && KeyCount(all, keys, Key(p, keys)) == 1
    ensures forall key :: KeyCount(r, keys, key) <= KeyCount(js, keys, key)
  {
    if js == [] then []
    else
      var rest := QualifyFrom(js[1..], all, keys);
      assert forall p :: p in js <==> p == js[0] || p in js[1..];
      if KeyCount(all, keys, Key(js[0], keys)) == 1 then [js[0]] + rest else rest
  }

  /** `QUALIFY count(*) OVER (PARTITION BY keys) = 1`. */
  function Qualify(js: seq<Pair>, keys: seq<Field>): seq<Pair>
  {
    QualifyFrom(js, js, keys)
  }

  /** `exact_<id>`: the qualified rows of the round's join. */
  function Exact(cs: seq<CeebRow>, ns: seq<NcesSchool>, rule: Rule): seq<Pair>
  {
    Qualify(Join(cs, ns, rule.using), rule.partitionBy)
  }

  /** No match has c's (non-NULL) CEEB code. */
  predicate CeebUnmatched(exact: seq<Pair>, c: CeebRow)
  {
    forall p :: p in exact ==> !SqlEq(c.ceeb, p.c.ceeb)
  }

  /** No match has n's (non-NULL) NCES id. */
  predicate NcesUnmatched(exact: seq<Pair>, n: NcesSchool)
  {
    forall p :: p in exact ==> !SqlEq(n.nces, p.n.nces)
  }

  /** `non_<id>_ceeb`: `ceeb ANTI JOIN exact USING (ceeb)`. Every unmatched
      row stays as often as it occurs, and every matched one goes. */
  function AntiCeeb(cs: seq<CeebRow>, exact: seq<Pair>): (r: seq<CeebRow>)
    ensures forall c :: c in r <==> c in cs && CeebUnmatched(exact, c)
    ensures forall c :: multiset(r)[c] == if CeebUnmatched(exact, c) then multiset(cs)[c] else 0
  {
    if cs == [] then []
    else
      var rest := AntiCeeb(cs[1..], exact);
      assert cs == [cs[0]] + cs[1..];
      assert forall c :: c in cs <==> c == cs[0] || c in cs[1..];
      if CeebUnmatched(exact, cs[0]) then [cs[0]] + rest else rest
  }

  /** `non_<id>_nces`: `nces ANTI JOIN exact USING (nces)`. Every unmatched
      row stays as often as it occurs, and every matched one goes. */
  function AntiNces(ns: seq<NcesSchool>, exact: seq<Pair>): (r: seq<NcesSchool>)
    ensures forall n :: n in r <==> n in ns && NcesUnmatched(exact, n)
    ensures forall n :: multiset(r)[n] == if NcesUnmatched(exact, n) then multiset(ns)[n] else 0
  {
    if ns == [] then []
    else
      var rest := AntiNces(ns[1..], exact);
      assert ns == [ns[0]] + ns[1..];
      assert forall n :: n in ns <==> n == ns[0] || n in ns[1..];
      if NcesUnmatched(exact, ns[0]) then [ns[0]] + rest else rest
  }

  /** The anti-joins only remove rows. */
  lemma AntiShrinks(cs: seq<CeebRow>, ns: seq<NcesSchool>, exact: seq<Pair>)
    ensures multiset(AntiCeeb(cs, exact)) <= multiset(cs)
    ensures multiset(AntiNces(ns, exact)) <= multiset(ns)
  {
  }

  // ---------------------------------------------------------------------
  // what one round promises

  lemma {:induction false} KeyCountPositive(js: seq<Pair>, keys: seq<Field>, p: Pair)
    requires p in js
    ensures KeyCount(js, keys, Key(p, keys)) >= 1
    decreases |js|
  {
    if js[0] != p {
      KeyCountPositive(js[1..], keys, p);
    }
  }

  /** Two rows at different places in the same partition make it count twice. */
  lemma {:induction false} KeyCountTwo(js: seq<Pair>, keys: seq<Field>, i: nat, j: nat)
    requires i < j < |js| && Key(js[i], keys) == Key(js[j], keys)
    ensures KeyCount(js, keys, Key(js[i], keys)) >= 2
    decreases |js|
  {
    if i == 0 {
      assert js[1..][j - 1] == js[j];
      KeyCountPositive(js[1..], keys, js[j]);
    } else {
      KeyCountTwo(js[1..], keys, i - 1, j - 1);
    }
  }

  /** A row is kept exactly when it is a joined row alone in its partition. */
  lemma ExactRows(cs: seq<CeebRow>, ns: seq<NcesSchool>, rule: Rule, p: Pair)
    ensures p in Exact(cs, ns, rule) <==>
      && p.c in cs && p.n in ns && Agrees(p.c, p.n, rule.using)
      && KeyCount(Join(cs, ns, rule.using), rule.partitionBy, Key(p, rule.partitionBy)) == 1
  {
  }

  /** Every match joins a CEEB row and an NCES row that are equal, and not
      NULL, on every join key, and no two matches share the round's
      partition values. */
  lemma ExactSound(cs: seq<CeebRow>, ns: seq<NcesSchool>, rule: Rule)
    ensures forall p :: p in Exact(cs, ns, rule) ==> p.c in cs && p.n in ns && Agrees(p.c, p.n, rule.using)
    ensures forall i, j :: 0 <= i < j < |Exact(cs, ns, rule)| ==>
      Key(Exact(cs, ns, rule)[i], rule.partitionBy) != Key(Exact(cs, ns, rule)[j], rule.partitionBy)
  {
    var js := Join(cs, ns, rule.using);
    var e := Exact(cs, ns, rule);
    var keys := rule.partitionBy;
    forall i, j | 0 <= i < j < |e| ensures Key(e[i], keys) != Key(e[j], keys) {
      assert e[i] in e;
      assert KeyCount(e, keys, Key(e[i], keys)) <= KeyCount(js, keys, Key(e[i], keys)) == 1;
      if Key(e[i], keys) == Key(e[j], keys) {
        KeyCountTwo(e, keys, i, j);
      }
    }
  }

  /** Two different joined rows in the same partition are both discarded. */
  lemma SharedPartitionDiscarded(cs: seq<CeebRow>, ns: seq<NcesSchool>, rule: Rule, p: Pair, q: Pair)
    requires p in Join(cs, ns, rule.using) && q in Join(cs, ns, rule.using) && p != q
    requires Key(p, rule.partitionBy) == Key(q, rule.partitionBy)
    ensures p !in Exact(cs, ns, rule) && q !in Exact(cs, ns, rule)
  {
    var js := Join(cs, ns, rule.using);
    var i :| 0 <= i < |js| && js[i] == p;
    var j :| 0 <= j < |js| && js[j] == q;
    if i < j {
      KeyCountTwo(js, rule.partitionBy, i, j);
    } else {
      KeyCountTwo(js, rule.partitionBy, j, i);
    }
  }

  /** The partition of a joined row counts at least its copies. */
  lemma {:induction false} KeyCountCopies(js: seq<Pair>, keys: seq<Field>, p: Pair)
    ensures KeyCount(js, keys, Key(p, keys)) >= multiset(js)[p]
    decreases |js|
  {
    if js != [] {
      assert js == [js[0]] + js[1..];
      KeyCountCopies(js[1..], keys, p);
    }
  }

  /** A joined row that occurs twice in the join is discarded: its
      partition counts both copies. */
  lemma JoinedTwiceDiscarded(cs: seq<CeebRow>, ns: seq<NcesSchool>, rule: Rule, p: Pair)
    requires multiset(Join(cs, ns, rule.using))[p] >= 2
    ensures p !in Exact(cs, ns, rule)
  {
    KeyCountCopies(Join(cs, ns, rule.using), rule.partitionBy, p);
  }

  /** A CEEB row listed twice, or an NCES row listed twice, loses every
      match it would have had: each copy makes its own joined row. */
  lemma DuplicateDiscarded(cs: seq<CeebRow>, ns: seq<NcesSchool>, rule: Rule, p: Pair)
    requires p in Join(cs, ns, rule.using)
    requires multiset(cs)[p.c] >= 2 || multiset(ns)[p.n] >= 2
    ensures p !in Exact(cs, ns, rule)
  {
    JoinMultiplicity(cs, ns, rule.using, p);
    TwoCopies(multiset(cs)[p.c], multiset(ns)[p.n]);
    JoinedTwiceDiscarded(cs, ns, rule, p);
  }

  lemma TwoCopies(a: nat, b: nat)
    requires a >= 1 && b >= 1 && (a >= 2 || b >= 2)
    ensures a * b >= 2
  {
    if a >= 2 {
      assert a * b >= 2 * b;
    } else {
      assert a * b == b;
    }
  }

  /** Round 1 does not partition on `name`: two joined rows at the same
      location whose NCES names differ are both discarded. */
  lemma RoundOneDropsSharedLocation(cs: seq<CeebRow>, ns: seq<NcesSchool>, p: Pair, q: Pair)
    requires p in Join(cs, ns, Round1.using) && q in Join(cs, ns, Round1.using)
    requires forall f :: f in Round1.partitionBy ==> p.n.attrs.Get(f) == q.n.attrs.Get(f)
    requires p.n.attrs.name != q.n.attrs.name
    ensures p !in Exact(cs, ns, Round1) && q !in Exact(cs, ns, Round1)
  {
    var keys := Round1.partitionBy;
    assert Key(p, keys) == Key(q, keys) by {
      forall k | 0 <= k < |keys| ensures Key(p, keys)[k] == Key(q, keys)[k] {
        assert keys[k] in keys;
      }
    }
    SharedPartitionDiscarded(cs, ns, Round1, p, q);
  }

  predicate SubsetOf(a: seq<Field>, b: seq<Field>)
  {
    forall f :: f in a ==> f in b
  }

  /** Rounds 2 to 6 partition on exactly their join keys, and round 1 on
      all of its join keys but `name`. */
  lemma RoundKeys()
    ensures forall i :: 1 <= i < |Rounds| ==> Rounds[i].partitionBy == Rounds[i].using
    ensures forall f :: f in Round1.partitionBy <==> f in Round1.using && f != Name
    ensures forall i :: 0 <= i < |Rounds| ==> SubsetOf(Rounds[i].partitionBy, Rounds[i].using)
  {
  }

  /** When the partition keys are join keys, two joined rows from the same
      CEEB row, or from the same NCES row, fall in the same partition. */
  lemma SameSideSameKey(p: Pair, q: Pair, rule: Rule)
    requires SubsetOf(rule.partitionBy, rule.using)
    requires Agrees(p.c, p.n, rule.using) && Agrees(q.c, q.n, rule.using)
    requires p.c == q.c || p.n == q.n
    ensures Key(p, rule.partitionBy) == Key(q, rule.partitionBy)
  {
    var keys := rule.partitionBy;
    forall k | 0 <= k < |keys| ensures Key(p, keys)[k] == Key(q, keys)[k] {
      assert keys[k] in rule.using;
    }
  }

  /** Every round matches one to one: no CEEB row and no NCES row occurs
      in two of its matches. */
  lemma ExactOneToOne(cs: seq<CeebRow>, ns: seq<NcesSchool>, rule: Rule)
    requires SubsetOf(rule.partitionBy, rule.using)
    ensures forall i, j :: 0 <= i < j < |Exact(cs, ns, rule)| ==>
      Exact(cs, ns, rule)[i].c != Exact(cs, ns, rule)[j].c &&
      Exact(cs, ns, rule)[i].n != Exact(cs, ns, rule)[j].n
  {
    var e := Exact(cs, ns, rule);
    ExactSound(cs, ns, rule);
    forall i, j | 0 <= i < j < |e| ensures e[i].c != e[j].c && e[i].n != e[j].n {
      assert e[i] in e && e[j] in e;
      if e[i].c == e[j].c || e[i].n == e[j].n {
        SameSideSameKey(e[i], e[j], rule);
      }
    }
  }

  /** The location columns of a match, after `EXCLUDE` drops the CEEB copies
      of the columns that are not join keys: the join keys (equal on both
      sides) and the NCES values of the rest. */
  function MatchedAttrs(p: Pair, rule: Rule): Attrs
  {
    var pick := (f: Field) => if f in rule.excluding || f !in rule.using then p.n.attrs.Get(f) else Coalesce(p.c.attrs.Get(f), p.n.attrs.Get(f));
    Attrs(pick(Name), pick(Address), pick(City), pick(State), pick(StateAbbr), pick(Zip))
  }

  /** So a match carries the NCES row's location. */
  lemma MatchedAttrsAreNces(p: Pair, rule: Rule)
    requires Agrees(p.c, p.n, rule.using)
    ensures MatchedAttrs(p, rule) == p.n.attrs
  {
    assert forall f :: f in rule.using ==> p.c.attrs.Get(f) == p.n.attrs.Get(f);
  }

  /** Every output column name occurs once: `EXCLUDE` drops the CEEB copy
      of exactly the location columns that are not join keys. */
  predicate Complements(r: Rule)
  {
    forall f :: f in r.excluding <==> f !in r.using
  }

  lemma FieldCases(f: Field)
    ensures f in AllFields
  {
  }

  lemma ExcludingComplementsUsing()
    ensures forall i :: 0 <= i < |Rounds| ==> Complements(Rounds[i])
  {
    forall f ensures f in Round1.excluding <==> f !in Round1.using {
      FieldCases(f);
    }
    forall f ensures f in Round2.excluding <==> f !in Round2.using {
      FieldCases(f);
    }
    forall f ensures f in Round3.excluding <==> f !in Round3.using {
      FieldCases(f);
    }
    forall f ensures f in Round4.excluding <==> f !in Round4.using {
      FieldCases(f);
    }
    forall f ensures f in Round5.excluding <==> f !in Round5.using {
      FieldCases(f);
    }
    forall f ensures f in Round6.excluding <==> f !in Round6.using {
      FieldCases(f);
    }
  }

  /** A row the count filter rejected is not consumed: when no other input
      row shares its CEEB code, and one of its joined rows was discarded,
      it stays in the residual for the next round. */
  lemma DiscardedStays(cs: seq<CeebRow>, ns: seq<NcesSchool>, rule: Rule, p: Pair)
    requires SubsetOf(rule.partitionBy, rule.using)
    requires p in Join(cs, ns, rule.using) && p !in Exact(cs, ns, rule)
    requires forall c :: c in cs && SqlEq(c.ceeb, p.c.ceeb) ==> c == p.c
    requires forall n :: n in ns && SqlEq(n.nces, p.n.nces) ==> n == p.n
    ensures p.c in AntiCeeb(cs, Exact(cs, ns, rule))
    ensures p.n in AntiNces(ns, Exact(cs, ns, rule))
  {
    var js := Join(cs, ns, rule.using);
    var keys := rule.partitionBy;
    forall q | q in Exact(cs, ns, rule) ensures !SqlEq(p.c.ceeb, q.c.ceeb) && !SqlEq(p.n.nces, q.n.nces) {
      assert KeyCount(js, keys, Key(q, keys)) == 1 != KeyCount(js, keys, Key(p, keys));
      if SqlEq(p.c.ceeb, q.c.ceeb) || SqlEq(p.n.nces, q.n.nces) {
        SameSideSameKey(p, q, rule);
      }
    }
  }

  /** Rows with a NULL code are never consumed. */
  lemma NullCodesStay(cs: seq<CeebRow>, ns: seq<NcesSchool>, exact: seq<Pair>)
    ensures forall c :: c in cs && c.ceeb.None? ==> c in AntiCeeb(cs, exact)
    ensures forall n :: n in ns && n.nces.None? ==> n in AntiNces(ns, exact)
  {
  }

  // ---------------------------------------------------------------------
  // the cascade

  /** One round as it ran: its rule, its inputs and its matches. */
  datatype Stage = Stage(rule: Rule, ceebIn: seq<CeebRow>, ncesIn: seq<NcesSchool>, exact: seq<Pair>)

  /** Runs the rules in order, each on the previous round's residuals. */
  function Cascade(rules: seq<Rule>, cs: seq<CeebRow>, ns: seq<NcesSchool>): (st: seq<Stage>)
    ensures |st| == |rules|
    ensures |st| > 0 ==> st[0].ceebIn == cs && st[0].ncesIn == ns
    ensures forall i :: 0 <= i < |st| ==>
      st[i].rule == rules[i] && st[i].exact == Exact(st[i].ceebIn, st[i].ncesIn, rules[i])
    ensures forall i :: 0 <= i < |st| - 1 ==>
      st[i + 1].ceebIn == AntiCeeb(st[i].ceebIn, st[i].exact) &&
      st[i + 1].ncesIn == AntiNces(st[i].ncesIn, st[i].exact)
    decreases |rules|
  {
    if rules == [] then []
    else
      var e := Exact(cs, ns, rules[0]);
      [Stage(rules[0], cs, ns, e)] + Cascade(rules[1..], AntiCeeb(cs, e), AntiNces(ns, e))
  }

  /** The residuals shrink from round to round. */
  lemma {:induction false} ResidualsShrink(rules: seq<Rule>, cs: seq<CeebRow>, ns: seq<NcesSchool>, i: nat, j: nat)
    requires i <= j < |rules|
    ensures multiset(Cascade(rules, cs, ns)[j].ceebIn) <= multiset(Cascade(rules, cs, ns)[i].ceebIn)
    ensures multiset(Cascade(rules, cs, ns)[j].ncesIn) <= multiset(Cascade(rules, cs, ns)[i].ncesIn)
    decreases j - i
  {
    if i < j {
      ResidualsShrink(rules, cs, ns, i + 1, j);
      var st := Cascade(rules, cs, ns);
      assert st[i + 1].ceebIn == AntiCeeb(st[i].ceebIn, st[i].exact);
      assert st[i + 1].ncesIn == AntiNces(st[i].ncesIn, st[i].exact);
      AntiShrinks(st[i].ceebIn, st[i].ncesIn, st[i].exact);
    }
  }

  /** So a row that reaches round j was in the inputs of every earlier round. */
  lemma ReachedEarlier(rules: seq<Rule>, cs: seq<CeebRow>, ns: seq<NcesSchool>, i: nat, j: nat, c: CeebRow, n: NcesSchool)
    requires i <= j < |rules|
    requires c in Cascade(rules, cs, ns)[j].ceebIn && n in Cascade(rules, cs, ns)[j].ncesIn
    ensures c in Cascade(rules, cs, ns)[i].ceebIn && n in Cascade(rules, cs, ns)[i].ncesIn
  {
    ResidualsShrink(rules, cs, ns, i, j);
    assert c in multiset(Cascade(rules, cs, ns)[j].ceebIn);
    assert n in multiset(Cascade(rules, cs, ns)[j].ncesIn);
  }

  /** A code matched in one round is not matched again in a later round. */
  lemma MatchedOnce(rules: seq<Rule>, cs: seq<CeebRow>, ns: seq<NcesSchool>, i: nat, j: nat, p: Pair, q: Pair)
    requires i < j < |rules|
    requires p in Cascade(rules, cs, ns)[i].exact && q in Cascade(rules, cs, ns)[j].exact
    ensures !SqlEq(p.c.ceeb, q.c.ceeb) && !SqlEq(p.n.nces, q.n.nces)
  {
    var st := Cascade(rules, cs, ns);
    ExactRows(st[j].ceebIn, st[j].ncesIn, rules[j], q);
    ReachedEarlier(rules, cs, ns, i + 1, j, q.c, q.n);
  }

  /** `select * exclude nces from schools.ceeb where nces is null`. Each
      CEEB row with a NULL `nces` keeps its number of copies. */
  function RoundOneCeeb(table: seq<CeebSchool>): (r: seq<CeebRow>)
    ensures forall c :: c in r <==> exists s :: s in table && s.nces.None? && c == CeebRow(s.ceeb, s.attrs)
    ensures forall c :: multiset(r)[c] == multiset(table)[CeebSchool(c.ceeb, None, c.attrs)]
  {
    if table == [] then []
    else
      var rest := RoundOneCeeb(table[1..]);
      assert table == [table[0]] + table[1..];
      assert forall s :: s in table <==> s == table[0] || s in table[1..];
      if table[0].nces.None? then [CeebRow(table[0].ceeb, table[0].attrs)] + rest else rest
  }

  /** `from schools.nces anti join schools.ceeb using (nces)`. Every kept
      row stays as often as it occurs. */
  function RoundOneNces(ncesTable: seq<NcesSchool>, ceebTable: seq<CeebSchool>): (r: seq<NcesSchool>)
    ensures forall n :: n in r <==> n in ncesTable && forall s :: s in ceebTable ==> !SqlEq(n.nces, s.nces)
    ensures forall n :: multiset(r)[n] == (if forall s :: s in ceebTable ==> !SqlEq(n.nces, s.nces)
                                          then multiset(ncesTable)[n] else 0)
  {
    if ncesTable == [] then []
    else
      var rest := RoundOneNces(ncesTable[1..], ceebTable);
      assert ncesTable == [ncesTable[0]] + ncesTable[1..];
      assert forall n :: n in ncesTable <==> n == ncesTable[0] || n in ncesTable[1..];
      if forall s :: s in ceebTable ==> !SqlEq(ncesTable[0].nces, s.nces) then [ncesTable[0]] + rest else rest
  }

  /** `strength: '<id>) <using joined by ", ">'`. */
  function Strength(rule: Rule): string
  {
    rule.id + ") " + JoinNames(rule.using)
  }

  function JoinNames(fs: seq<Field>): string
  {
    if fs == [] then ""
    else if |fs| == 1 then FieldName(fs[0])
    else FieldName(fs[0]) + ", " + JoinNames(fs[1..])
  }

  /** The round id read back from a strength tag: everything before ')'. */
  function StrengthId(s: string): string
  {
    if s == [] || s[0] == ')' then "" else [s[0]] + StrengthId(s[1..])
  }

  lemma {:induction false} StrengthIdOf(id: string, tail: string)
    requires ')' !in id
    ensures StrengthId(id + ")" + tail) == id
    decreases |id|
  {
    if id == [] {
      assert id + ")" + tail == [')'] + tail;
    } else {
      assert (id + ")" + tail)[1..] == id[1..] + ")" + tail;
      StrengthIdOf(id[1..], tail);
    }
  }

  /** The strength tag names the round that made the match. */
  lemma StrengthNamesRound(rule: Rule)
    requires ')' !in rule.id
    ensures StrengthId(Strength(rule)) == rule.id
  {
    assert Strength(rule) == rule.id + ")" + (" " + JoinNames(rule.using));
    StrengthIdOf(rule.id, " " + JoinNames(rule.using));
  }

  /** With the six rounds' ids, the tags of the rounds are all different. */
  lemma StrengthsDistinct()
    ensures forall i, j :: 0 <= i < j < |Rounds| ==> Strength(Rounds[i]) != Strength(Rounds[j])
  {
    forall i | 0 <= i < |Rounds| ensures StrengthId(Strength(Rounds[i])) == Rounds[i].id {
      assert Rounds[i] in Rounds;
      StrengthNamesRound(Rounds[i]);
    }
  }

  /** A row of the final union. */
  datatype Match = Match(strength: string, c: CeebRow, n: NcesSchool)

  /** m is one of the stage's matches, tagged with its round's strength. */
  predicate Tagged(m: Match, s: Stage)
  {
    m.strength == Strength(s.rule) && Pair(m.c, m.n) in s.exact
  }

  function Tag(s: Stage): (ms: seq<Match>)
    ensures forall m :: m in ms <==> Tagged(m, s)
  {
    var ms := seq(|s.exact|, k requires 0 <= k < |s.exact| => Match(Strength(s.rule), s.exact[k].c, s.exact[k].n));
    assert forall m: Match :: Tagged(m, s) ==> m in ms by {
      forall m: Match | Tagged(m, s) ensures m in ms {
        var k :| 0 <= k < |s.exact| && s.exact[k] == Pair(m.c, m.n);
        assert ms[k] == m;
      }
    }
    ms
  }

  /** `from exact_1 union all by name ... from exact_6`, each row tagged. */
  function Union(st: seq<Stage>): (ms: seq<Match>)
    ensures forall m :: m in ms <==> (exists i :: 0 <= i < |st| && Tagged(m, st[i]))
  {
    if st == [] then []
    else
      var rest := Union(st[1..]);
      assert forall m :: m in rest ==> exists i :: 0 <= i < |st| && Tagged(m, st[i]) by {
        forall m | m in rest ensures exists i :: 0 <= i < |st| && Tagged(m, st[i]) {
          var i :| 0 <= i < |st[1..]| && Tagged(m, st[1..][i]);
          assert st[1..][i] == st[i + 1];
        }
      }
      assert forall m :: (exists i :: 0 <= i < |st| && Tagged(m, st[i])) && !Tagged(m, st[0]) ==> m in rest by {
        forall m: Match | (exists i :: 0 <= i < |st| && Tagged(m, st[i])) && !Tagged(m, st[0]) ensures m in rest {
          var i :| 0 <= i < |st| && Tagged(m, st[i]);
          assert st[1..][i - 1] == st[i];
        }
      }
      Tag(st[0]) + rest
  }

  /** The whole query of `iterative_exact_matching`. */
  function IterativeExactMatching(ceebTable: seq<CeebSchool>, ncesTable: seq<NcesSchool>): seq<Match>
  {
    Union(Cascade(Rounds, RoundOneCeeb(ceebTable), RoundOneNces(ncesTable, ceebTable)))
  }

  /** Every row of the result pairs a CEEB school with no NCES link and an
      NCES school whose id no CEEB school carries, that agree on the join
      keys of the round its strength names. */
  lemma ResultProvenance(ceebTable: seq<CeebSchool>, ncesTable: seq<NcesSchool>, m: Match)
    requires m in IterativeExactMatching(ceebTable, ncesTable)
    ensures exists i :: 0 <= i < |Rounds| && m.strength == Strength(Rounds[i]) && Agrees(m.c, m.n, Rounds[i].using)
    ensures exists s :: s in ceebTable && s.nces.None? && m.c == CeebRow(s.ceeb, s.attrs)
    ensures m.n in ncesTable && forall s :: s in ceebTable ==> !SqlEq(m.n.nces, s.nces)
  {
    var cs, ns := RoundOneCeeb(ceebTable), RoundOneNces(ncesTable, ceebTable);
    var st := Cascade(Rounds, cs, ns);
    var i :| 0 <= i < |st| && Tagged(m, st[i]);
    ExactSound(st[i].ceebIn, st[i].ncesIn, Rounds[i]);
    ResidualsShrink(Rounds, cs, ns, 0, i);
    assert m.c in cs by { assert m.c in multiset(st[i].ceebIn); }
    assert m.n in ns by { assert m.n in multiset(st[i].ncesIn); }
  }

  /** Two matches of a cascade that share a CEEB code or an NCES id come
      from the same round. */
  lemma SharedCodeSameStage(rules: seq<Rule>, cs: seq<CeebRow>, ns: seq<NcesSchool>, i: nat, j: nat, p: Pair, q: Pair)
    requires i < |rules| && j < |rules|
    requires p in Cascade(rules, cs, ns)[i].exact && q in Cascade(rules, cs, ns)[j].exact
    requires SqlEq(p.c.ceeb, q.c.ceeb) || SqlEq(p.n.nces, q.n.nces)
    ensures i == j
  {
    if i < j {
      MatchedOnce(rules, cs, ns, i, j, p, q);
    } else if j < i {
      MatchedOnce(rules, cs, ns, j, i, q, p);
    }
  }

  /** Across the whole result, a CEEB code or an NCES id matched by two
      rows is matched in one round, so both rows carry the same strength. */
  lemma ResultCodesOneRound(ceebTable: seq<CeebSchool>, ncesTable: seq<NcesSchool>, m1: Match, m2: Match)
    requires m1 in IterativeExactMatching(ceebTable, ncesTable) && m2 in IterativeExactMatching(ceebTable, ncesTable)
    requires SqlEq(m1.c.ceeb, m2.c.ceeb) || SqlEq(m1.n.nces, m2.n.nces)
    ensures m1.strength == m2.strength
  {
    var st := Cascade(Rounds, RoundOneCeeb(ceebTable), RoundOneNces(ncesTable, ceebTable));
    var i :| 0 <= i < |st| && Tagged(m1, st[i]);
    var j :| 0 <= j < |st| && Tagged(m2, st[j]);
    SharedCodeSameStage(Rounds, RoundOneCeeb(ceebTable), RoundOneNces(ncesTable, ceebTable), i, j, Pair(m1.c, m1.n), Pair(m2.c, m2.n));
  }
}
