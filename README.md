# school-id-crosswalk, modelled in Dafny

This project models the matching engine of school-id-crosswalk. The engine
links institution records across identifier systems that share no key:

- College Board CEEB codes;
- NCES school ids;
- IPEDS unit ids;
- NSC codes.

The project also models the small naming and batching helpers the pipelines
rely on. The SQL and polars code of the repository is stated as relational
algebra over finite sequences of records:

- SQL NULL is `Option.None`;
- `=` inside a join is `Sql.SqlEq`, which never holds for NULL;
- a full join is `Sql.FullJoin`, which produces `Both`, `LeftOnly` and `RightOnly` rows.

Files and modules:

- `sql.dfy` (`Sql`): NULL-aware equality, `coalesce`, filtering, mapping and the full outer join.
- `text.dfy` (`Text`): the Python string operations the code uses:
  - ASCII `lower()`/`upper()`;
  - `str(int)`, with its parser as the inverse;
  - the slice `s[:-k]`;
  - POSIX `os.path.join`.
- `tighten.dfy` (`Tighten`): the `tighten` normaliser of crosswalking/schools.py.
  - It covers the regex `((?:\b\w\b\s*){2,})(?=\s|$)`, with every match replaced by itself minus its spaces.
  - The model describes the matches the leftmost-greedy search finds, not a backtracking engine. The word class `\w` is a parameter.
- `school_cascade.dfy` (`SchoolCascade`): the six-round K-12 exact-match cascade.
  - A round rule is a value `(id, excluding, using, partitionBy)`.
  - A round is the inner join on `using`, the `QUALIFY count(*) = 1` filter over `partitionBy`, and the two anti-joins that give the residuals.
  - The cascade is a fold over the six rules.
  - The result is the union of the rounds, each row tagged with its strength label.
- `university_exact.dfy` (`UniversityExact`): the university exact stage:
  - the inner join on `lower(name)` and `state`;
  - the anti-join residuals;
  - the `multicampus` split;
  - the table the full-text index is built over.
- `university_fuzzy.dfy` (`UniversityFuzzy`): the fuzzy stage:
  - candidate retrieval, as an imperative loop, failing like `pl.concat` when there is nothing to search for;
  - the two maxima over four name/city combinations;
  - the acceptance rule;
  - the reduction to one winner per IPEDS id.
  - BM25, `Levenshtein.ratio` and `fuzz.token_sort_ratio` are function parameters. Nothing is assumed about their values, nor about whether the two string libraries raise on a NULL (`None`) argument. A library call that raises is the parameter returning `None`.
- `university_crosswalk.dfy` (`UniversityCrosswalk`): the consolidation query. The tagged union of fuzzy and exact links is full-joined with the CEEB universities, then the IPEDS directory, then the NSC list.
- `nces.dfy` (`NcesNaming`), `ipeds.dfy` (`IpedsNaming`), `ceeb_chunks.dfy` (`CeebChunks`): the NCES and IPEDS file-naming rules, and the batching of CEEB codes into chunks of 50.

Three behaviours of the code that a reader may not expect:

- An unmatched row of the university crosswalk has a NULL `method`. `SELECT method` (crosswalking/universities.py:282) reads the column of the union, and the full joins leave it NULL for a row that no link reaches.
- `year_abb` is not zero-padded (utils/nces.py:22-24). For example, 2005 gives "56".
- When every CEEB university has an exact match, the university script raises at `pl.concat` (crosswalking/universities.py:216), because the list of search results is empty. The model returns `None` there, and the crosswalk is not built.

## Model

| member | source | states |
|---|---|---|
| Sql.FullJoinRows | crosswalking/universities.py:320-322 | A full join holds a `Both` row exactly for each joined pair. It holds a one-sided row exactly for each row that joins nothing. Every row of either side appears at least once. |
| Sql.Where | crosswalking/universities.py:259-265 | A filter keeps exactly the rows satisfying the predicate, and never adds copies. |
| Sql.WhereSplit | crosswalking/universities.py:165-168 | Two complementary filters split a table: their multisets add up to the table's. |
| Text.ParseIntToString | utils/ipeds.py:18-20 | `str(year)` loses nothing: the decimal rendering can be read back. |
| Text.DropLastOfSuffix | utils/nces.py:27 | `(a + b)[:-len(b)]` is `a`. |
| Tighten.MatchLen | crosswalking/schools.py:44 | Where the leftmost-greedy search finds a match at the start of the remaining text. The pattern is two or more single-character words, each followed by optional whitespace, with a lookahead for whitespace or the end of the text. The shape of every match it reports is stated by `Tighten.MatchLenShape`. |
| Tighten.MatchLenShape | crosswalking/schools.py:43-46 | Every match has the same shape. It starts at a single-character word that nothing word-like precedes. Within it, a second single-character word follows after whitespace. It ends at the end of the text or right before a whitespace character, as the lookahead demands. |
| Tighten.Scan | crosswalking/schools.py:44-46 | `re.sub` scans left to right and resumes after each replaced match. That it deletes only spaces is stated by `Tighten.TightenDeletesOnlySpaces`. What it keeps and what it merges is stated by `Tighten.TightenKeepsWithoutRuns`, `Tighten.TightenMergesRun` and `Tighten.TightenKeepsPairBeforePunctuation`. |
| Tighten.Tighten | crosswalking/schools.py:42-47 | The `tighten` normaliser. Its contract is stated by the lemmas below. |
| Tighten.TightenDeletesOnlySpaces | crosswalking/schools.py:42-47 | `tighten` only deletes U+0020 characters. Every other character survives in order, so the output is never longer than the input. |
| Tighten.TightenKeepsWithoutRuns | crosswalking/schools.py:44 | A text with no two single-character words separated only by whitespace is returned unchanged. This covers lone single-character words and words of two or more characters. |
| Tighten.TightenMergesRun | crosswalking/schools.py:44-45 | A run of two or more single-character words separated by single spaces becomes one token wherever it stands in the text, so "university of u s a" becomes "university of usa". Three conditions apply. No word character stands right before the run. No single-character word runs into it from the left. The run is followed either by the end of the text, or by exactly one whitespace character and then a non-whitespace character that does not start another single-character word. The text before the run is copied unchanged, and the text after it is tightened on its own. |
| Tighten.TightenArrives | crosswalking/schools.py:44-46 | Suppose a prefix, together with the next character, holds no two single-character words separated only by whitespace. Then the scan copies that prefix unchanged and carries on from the next character. |
| Tighten.TightenKeepsPairBeforePunctuation | crosswalking/schools.py:44 | Two single-character words followed directly by punctuation are left alone, because the lookahead needs whitespace or the end. |
| SchoolCascade.Join | crosswalking/schools.py:102-103 | `INNER JOIN ... USING` pairs exactly the CEEB and NCES rows that agree, non-NULL, on every `using` column. How many copies of each pair it makes is stated by `SchoolCascade.JoinMultiplicity`. |
| SchoolCascade.JoinMultiplicity | crosswalking/schools.py:102-103 | A joined pair occurs once for every copy of its CEEB row and every copy of its NCES row. |
| SchoolCascade.QualifyFrom | crosswalking/schools.py:104 | The window filter keeps exactly the joined rows whose partition key occurs once in the whole join. |
| SchoolCascade.AntiCeeb | crosswalking/schools.py:67-77 | `ANTI JOIN ... USING (ceeb)` keeps exactly the rows whose `ceeb` equals no matched `ceeb`. A NULL code always stays. Each kept row keeps its full multiplicity, and every other row is removed entirely. |
| SchoolCascade.AntiNces | crosswalking/schools.py:67-77 | The same, by `nces`, with the same multiplicities. |
| SchoolCascade.Exact | crosswalking/schools.py:99-105 | `exact_<id>`. Its contract is stated by `SchoolCascade.ExactRows`, `SchoolCascade.ExactSound`, `SchoolCascade.SharedPartitionDiscarded` and `SchoolCascade.ExactOneToOne`. |
| SchoolCascade.ExactRows | crosswalking/schools.py:99-105 | A pair is in `exact_i` iff it joins on `using` and no other joined pair shares its `partition_by` values. |
| SchoolCascade.ExactSound | crosswalking/schools.py:99-105 | Every row of `exact_i` comes from the round's inputs and agrees on every `using` key. No two rows share the `partition_by` values. |
| SchoolCascade.SharedPartitionDiscarded | crosswalking/schools.py:104 | Two different joined pairs with the same partition key are both discarded. |
| SchoolCascade.JoinedTwiceDiscarded | crosswalking/schools.py:104 | A pair that occurs twice in the join is discarded, because the window counts both copies. |
| SchoolCascade.DuplicateDiscarded | crosswalking/schools.py:102-104 | A joined pair whose CEEB row or NCES row is listed twice in the round's input is not matched. |
| SchoolCascade.RoundOneDropsSharedLocation | crosswalking/schools.py:120-121 | In round 1, two joined pairs that share a location but differ in name are both discarded, because `name` is not in the partition. |
| SchoolCascade.RoundKeys | crosswalking/schools.py:115-167 | Rounds 2–6 partition on exactly their join keys. Round 1 partitions on its join keys minus `name`. |
| SchoolCascade.ExactOneToOne | crosswalking/schools.py:103-104 | When the partition keys are join keys, no CEEB row and no NCES row occurs in two rows of `exact_i`. |
| SchoolCascade.MatchedAttrsAreNces | crosswalking/schools.py:90-103 | With the excluded CEEB columns dropped, a matched row's attributes are the NCES row's. |
| SchoolCascade.ExcludingComplementsUsing | crosswalking/schools.py:115-167 | In every round, each of the six attributes is excluded from the CEEB side exactly when it is not a join key. |
| SchoolCascade.DiscardedStays | crosswalking/schools.py:104 | When the partition keys are join keys, a joined pair that the count filter drops leaves both of its rows in the residuals. This assumes no other input row shares their `ceeb` or `nces` code. |
| SchoolCascade.NullCodesStay | crosswalking/schools.py:67-77 | Rows with a NULL code are never removed by an anti-join. |
| SchoolCascade.Cascade | crosswalking/schools.py:124-167 | There is one stage per rule. Stage 1 reads the round-1 inputs. Each stage's inputs are the previous stage's residuals. |
| SchoolCascade.ResidualsShrink | crosswalking/schools.py:127-164 | Residuals shrink monotonically, as multisets, along the cascade. |
| SchoolCascade.ReachedEarlier | crosswalking/schools.py:127-164 | A row that is input to a later round was input to every earlier round. |
| SchoolCascade.MatchedOnce | crosswalking/schools.py:108-109 | A `ceeb` or `nces` code matched in round i is never matched again in a later round. |
| SchoolCascade.RoundOneCeeb | crosswalking/schools.py:118 | Round 1's CEEB input is exactly the CEEB rows whose `nces` is NULL, with `nces` dropped. Each keeps its number of copies. |
| SchoolCascade.RoundOneNces | crosswalking/schools.py:119 | Round 1's NCES input is exactly the NCES rows whose `nces` occurs in no CEEB row. Each kept row keeps its number of copies, and a removed row keeps none. |
| SchoolCascade.StrengthNamesRound | crosswalking/schools.py:97 | The strength tag `"<id>) <using keys>"` gives back the round id. |
| SchoolCascade.StrengthsDistinct | crosswalking/schools.py:97 | The six rounds have six different strength tags. |
| SchoolCascade.Union | crosswalking/schools.py:169-173 | The union holds exactly the matches of every round, each tagged with its round's strength. |
| SchoolCascade.IterativeExactMatching | crosswalking/schools.py:79-198 | The whole query of `iterative_exact_matching`. Its contract is stated by `SchoolCascade.ResultProvenance` and `SchoolCascade.ResultCodesOneRound`. |
| SchoolCascade.ResultProvenance | crosswalking/schools.py:169-198 | Every result row joins on some round's keys and carries that round's strength. Its CEEB row has a NULL `nces`. Its NCES row has no CEEB link. |
| SchoolCascade.ResultCodesOneRound | crosswalking/schools.py:169-198 | Two result rows sharing a `ceeb` or an `nces` code carry the same strength. |
| UniversityExact.ExactMatches | crosswalking/universities.py:84-89 | An exact pair exists iff the lower-cased names are equal and the states are equal, neither being NULL. |
| UniversityExact.ExactMultiplicity | crosswalking/universities.py:84-89 | There is no uniqueness filter. A pair occurs once per copy of its IPEDS row times each copy of its CEEB row. |
| UniversityExact.NonExactIpedsRows | crosswalking/universities.py:139-145 | An IPEDS row is in `non_exact_ipeds` iff no CEEB row shares its lower-cased name and state. |
| UniversityExact.NonExactCeebRows | crosswalking/universities.py:148-154 | A CEEB row is in `non_exact_ceeb` iff no IPEDS row shares its lower-cased name and state. |
| UniversityExact.MultiSplit | crosswalking/universities.py:165-168 | `exact_no_multi` (false) and `exact_multi` (true or NULL) partition the exact matches, with multiplicities. |
| UniversityExact.IndexTable | crosswalking/universities.py:171-173 | The indexed table is `ipeds_hd` minus the rows whose `ipeds` is in `exact_no_multi`. |
| UniversityExact.IndexedRows | crosswalking/universities.py:164-173 | A single-campus exact match's id is not indexed. A multicampus or NULL one stays indexable unless a single-campus match claims its id. |
| UniversityFuzzy.Hits | crosswalking/universities.py:40-50 | Retrieval considers exactly the rows with a non-NULL score whose state equals the query's, ignoring case. |
| UniversityFuzzy.SortDesc | crosswalking/universities.py:51 | `ORDER BY match_score DESC` gives a descending permutation of the hits. |
| UniversityFuzzy.TopHits | crosswalking/universities.py:51-52 | With `LIMIT`, the result has `min(limit, hits)` rows, descending, and is drawn from the hits. No hit left out scores above one kept. |
| UniversityFuzzy.TagHits | crosswalking/universities.py:55-63 | Row i of the result is hit i, unchanged, with the query's name, state and `ceeb` added. |
| UniversityFuzzy.TagUntag | crosswalking/universities.py:55-63 | Tagging loses nothing: dropping the added columns gives back the hits, in order. |
| UniversityFuzzy.SearchIndex | crosswalking/universities.py:33-65 | `search_index`. Its contract is stated by `UniversityFuzzy.SearchIndexRows` and `UniversityFuzzy.SearchIndexTop`. |
| UniversityFuzzy.SearchIndexRows | crosswalking/universities.py:33-65 | One search returns at most `limit` rows by descending score. Each is an IPEDS row with a score in the query's state, tagged with the query. |
| UniversityFuzzy.SearchIndexTop | crosswalking/universities.py:40-52 | One search keeps top hits. Its rows are hits of the query, with their multiplicity. No hit it leaves out scores above a row it keeps. |
| UniversityFuzzy.Candidates | crosswalking/universities.py:194-216 | The candidates are exactly the results of the searches for the query rows, with limit 10. With no query row, `pl.concat` gets an empty list and raises, which is `None`. |
| UniversityFuzzy.RetrieveCandidates | crosswalking/universities.py:194-216 | The loop collects one search per non-exact CEEB row, in order, and the concatenation afterwards fails when it collected nothing. |
| UniversityFuzzy.SearchesRows | crosswalking/universities.py:194-216 | A candidate is retrieved iff it is in the search for some query row. |
| UniversityFuzzy.CandidatesIndexed | crosswalking/universities.py:171-188 | When only indexed documents are scored, every candidate's `ipeds` is indexed. |
| UniversityFuzzy.Max4 | crosswalking/universities.py:229 | `max` of four is an upper bound attained by one of the four. |
| UniversityFuzzy.SimilarityAbove | crosswalking/universities.py:219-229 | When all four calls answer, `similarity_ratio > t` iff one of the four name / name+city combinations has a Levenshtein ratio above t. Both augmented strings use the candidate's city. |
| UniversityFuzzy.FuzzAbove | crosswalking/universities.py:232-240 | When all four calls answer, `fuzz_ratio > 0.95` iff one of the four combinations has an integer token-sort ratio above 95. |
| UniversityFuzzy.Score | crosswalking/universities.py:219-257 | Scoring succeeds iff none of the eight library calls raises. These are four `Levenshtein.ratio` and four `fuzz.token_sort_ratio` calls, on the four name / name+city pairs. `search_name_city` and `name_city` are NULL when a part is NULL, as polars `+` is. The scores are the two maxima. |
| UniversityFuzzy.ScoreStrict | crosswalking/universities.py:219-257 | If both libraries raise exactly on a `None` argument, a candidate is scored iff its search name, name and city are all non-NULL. |
| UniversityFuzzy.ScoreTolerant | crosswalking/universities.py:219-257 | If neither library raises, every candidate is scored. |
| UniversityFuzzy.ScoreAll | crosswalking/universities.py:243-257 | `map_elements` scores every candidate, in order, and fails as a whole if one fails. |
| UniversityFuzzy.AcceptsIff | crosswalking/universities.py:259-265 | A candidate is accepted iff BM25 > 4 and (BM25 > 8, or a Levenshtein combination > 0.9, or a token-sort combination > 95). |
| UniversityFuzzy.UpsertRows | crosswalking/universities.py:266-271 | Adding a row to the per-id table adds its id and touches only that id's row. |
| UniversityFuzzy.UpsertDistinct | crosswalking/universities.py:271 | The per-id table keeps one row per id. |
| UniversityFuzzy.UpsertBest | crosswalking/universities.py:266-271 | The row kept for an id is at least as good as both the old row and the new one. |
| UniversityFuzzy.BestFuzzyMatch | crosswalking/universities.py:266-271 | `best_fuzzy_match` has exactly one row per `ipeds` (NULL included) among the accepted candidates. That row is one of them and maximises `(match_score, similarity_ratio)` lexicographically within its group. |
| UniversityFuzzy.FuzzyFrom | crosswalking/universities.py:216-271 | After retrieval, the stage fails exactly when retrieval failed or some candidate cannot be scored. |
| UniversityFuzzy.FuzzyStage | crosswalking/universities.py:149-271 | From the exact matches to `best_fuzzy_match`. Its contract is stated by `UniversityFuzzy.FuzzyStageRows`, `UniversityFuzzy.FuzzyStageFails` and `UniversityFuzzy.AllExactFails`. |
| UniversityFuzzy.FuzzyStageRows | crosswalking/universities.py:149-271 | Every fuzzy winner passed the acceptance rule with its candidate's own scores. That candidate is a search result for a CEEB university without an exact match. |
| UniversityFuzzy.FuzzyStageFails | crosswalking/universities.py:196-257 | The fuzzy stage raises exactly when no CEEB university is left for it, or when a library call raises while scoring a retrieved candidate. |
| UniversityFuzzy.FuzzyStageStrict | crosswalking/universities.py:196-257 | If both libraries raise exactly on `None`, the stage raises iff no CEEB university is left or a retrieved candidate has a NULL search name, name or city. |
| UniversityFuzzy.FuzzyStageTolerant | crosswalking/universities.py:196-257 | If neither library raises, the stage raises iff no CEEB university is left. |
| UniversityFuzzy.AllExactFails | crosswalking/universities.py:149-216 | When every CEEB university has an exact match, no search runs and `pl.concat` raises. |
| UniversityCrosswalk.LinksTagged | crosswalking/universities.py:301-318 | The union holds a 'fuzzy' link for every best fuzzy match and an 'exact' link for every exact match, and nothing else. |
| UniversityCrosswalk.CeebJoinKeeps | crosswalking/universities.py:320 | The CEEB join keeps every link. |
| UniversityCrosswalk.CeebJoinHas | crosswalking/universities.py:320 | The CEEB join keeps every CEEB university. |
| UniversityCrosswalk.CeebJoinAlone | crosswalking/universities.py:320 | A CEEB university joined by no link gets its own row, without a link. |
| UniversityCrosswalk.JoinCeebKeys | crosswalking/universities.py:320 | After `USING (ceeb, state)`, a linked row carries its link's `ipeds` and `state`, and an unlinked row has no `ipeds`. |
| UniversityCrosswalk.IpedsJoinKeeps | crosswalking/universities.py:321 | The IPEDS join keeps every row with its link and its CEEB row. |
| UniversityCrosswalk.IpedsJoinHas | crosswalking/universities.py:321 | The IPEDS join keeps every IPEDS row. |
| UniversityCrosswalk.IpedsJoinAlone | crosswalking/universities.py:321 | An IPEDS row joined by nothing gets its own row, without a link. |
| UniversityCrosswalk.NscJoinKeeps | crosswalking/universities.py:322 | The NSC join keeps every row with its link, CEEB row and IPEDS row. |
| UniversityCrosswalk.NscJoinHas | crosswalking/universities.py:322 | The NSC join keeps every NSC row. |
| UniversityCrosswalk.NscJoinFrom | crosswalking/universities.py:322 | A linked row after the NSC join carries an input row's link. The CEEB and IPEDS joins behave the same way (`CeebJoinFrom`, `IpedsJoinFrom`). |
| UniversityCrosswalk.CrosswalkLinkFrom | crosswalking/universities.py:279-323 | A linked crosswalk row carries a link of the union and is tagged 'fuzzy' or 'exact'. |
| UniversityCrosswalk.CrosswalkMethods | crosswalking/universities.py:279-323 | `method` is NULL, 'fuzzy' or 'exact' in every row. |
| UniversityCrosswalk.CrosswalkKeepsRows | crosswalking/universities.py:301-322 | Every `ceeb_university`, `ipeds_hd` and `nsc_university` row, and every link with its tag, appears at least once. |
| UniversityCrosswalk.UnmatchedCeebNull | crosswalking/universities.py:279-323 | A CEEB university that no link matches on `(ceeb, state)` appears in a row whose `method` is NULL. |
| UniversityCrosswalk.UnmatchedIpedsNull | crosswalking/universities.py:279-323 | An IPEDS row that no link matches on `(ipeds, state)` appears in a row whose `method` is NULL. |
| UniversityCrosswalk.Crosswalk | crosswalking/universities.py:278-326 | `university_crosswalk`. Its contract is stated by `UniversityCrosswalk.CrosswalkMethods`, `UniversityCrosswalk.CrosswalkKeepsRows`, `UniversityCrosswalk.UnmatchedCeebNull`, `UniversityCrosswalk.UnmatchedIpedsNull` and `UniversityCrosswalk.UnmatchedNscNull`. |
| UniversityCrosswalk.JoinIpedsKeys | crosswalking/universities.py:321 | After `USING (ipeds, state)`, a linked row still carries its link's `ipeds`. |
| UniversityCrosswalk.NscJoinUnlinked | crosswalking/universities.py:322 | An NSC row that joins no linked row gets a row without a link. |
| UniversityCrosswalk.UnmatchedNscNull | crosswalking/universities.py:279-323 | An NSC row whose `ipeds` no link carries appears in a row whose `method` is NULL. |
| UniversityCrosswalk.FuzzyAvoidsSingleCampus | crosswalking/universities.py:164-173 | No 'fuzzy' link carries the IPEDS id of an exact match to a single-campus institution. This holds when the BM25 scorer gives NULL outside `ipeds_multi_non_exact`. |
| UniversityCrosswalk.Pipeline | crosswalking/universities.py:82-326 | The script from the input tables to `university_crosswalk`. It fails when the fuzzy stage raises. |
| UniversityCrosswalk.PipelineAllExactFails | crosswalking/universities.py:149-216 | When every CEEB university has an exact match, the script stops before the crosswalk is built. |
| UniversityCrosswalk.PipelineFuzzyAvoidsSingleCampus | crosswalking/universities.py:164-326 | Across the whole script, a crosswalk row tagged 'fuzzy' never carries the IPEDS id of an exact match to a single-campus institution. This holds under the same BM25 condition. |
| NcesNaming.ConvertSchoolType | utils/nces.py:43-52 | A type is accepted iff its lower-cased form is "public", "private" or "postsecondary". Anything else is the `ValueError` with its message. |
| NcesNaming.ConvertSchoolTypeCases | utils/nces.py:44-50 | Each type's name is accepted in any letter case and yields that type. |
| NcesNaming.CodeInjective | utils/nces.py:45-50 | The three codes are different. |
| NcesNaming.YearAbb | utils/nces.py:21-24 | `year_abb` has at least two characters. Its digits are stated by `NcesNaming.YearAbbSplit`, `NcesNaming.YearAbbDigits` and `NcesNaming.YearAbbUnpadded`. |
| NcesNaming.YearAbbSplit | utils/nces.py:21-24 | For every year, `year_abb` is all digits. It splits into `year % 1000` followed by the next number, and each part reads back as its number. |
| NcesNaming.YearAbbDigits | utils/nces.py:21-24 | For a two-digit `year % 1000` below 99, `year_abb` is four digits: that number, then the next. |
| NcesNaming.YearAbbUnpadded | utils/nces.py:21-24 | There is no zero padding: a single-digit `year % 1000` gives a two-character `year_abb`. |
| NcesNaming.NewNces | utils/nces.py:8-41 | Construction fails exactly on an invalid school type, with its message. Otherwise the object has the converted type and the year, and every other field is the one `NcesFields` computes, which `NcesBaseName`, `NcesUrl`, `NcesFolders` and `NcesTable` describe. |
| NcesNaming.NcesBaseName | utils/nces.py:26-27 | `base_name` is `EDGE_GEOCODE_<code>_<year_abb>` and `file_name` is that plus ".zip". Neither holds a '/'. |
| NcesNaming.NcesUrl | utils/nces.py:29-32 | The URL is the EDGE base URL plus the file name, and the download path is `raw-data/<file_name>`. |
| NcesNaming.NcesFolders | utils/nces.py:33-37 | The extraction folder is `extracted-zips/<base_name>` for private schools, otherwise `extracted-zips`. The Excel file is always `extracted-zips/<base_name>/<base_name>.xlsx`. |
| NcesNaming.NcesTable | utils/nces.py:21-22 | `yr` is the year modulo 1000. The table is "university" exactly for postsecondary schools, otherwise "school". |
| IpedsNaming.FileNameCaseRule | utils/ipeds.py:17-21 | Both eras give the same file name once lower-cased. The year rule changes nothing but letter case. |
| IpedsNaming.IpedsBaseName | utils/ipeds.py:17-23 | `base_name` plus ".zip" is the file name. |
| IpedsNaming.NewIpeds | utils/ipeds.py:7-34 | The object keeps its year, table name and suffix. Its file name follows the case rule and is `base_name` plus ".zip". |
| IpedsNaming.IpedsNames | utils/ipeds.py:13-34 | URL, download path, extraction folder `extracted-zips/<table_name+suffix>` and CSV path, spelt out. |
| CeebChunks.FlattenChunks | data_collection/ceeb.py:50-54 | Concatenating the chunks gives back the codes exactly, in order. |
| CeebChunks.ChunkSizes | data_collection/ceeb.py:50-54 | Every chunk is non-empty and holds at most 50 codes. All but the last hold exactly 50. |
| CeebChunks.ChunkAt | data_collection/ceeb.py:51-54 | Chunk i is the slice `codes[50*i : 50*i + 50]` of the comprehension. |
| CeebChunks.ChunkCount | data_collection/ceeb.py:51-58 | There are ⌈n/50⌉ chunks. |
| CeebChunks.Chunks | data_collection/ceeb.py:51-54 | An empty list gives no chunks. |

## Left out

- BM25 scoring and the full-text index (`match_bm25`, `create_fts_index`) are library code. Retrieval takes the scorer as a function parameter and assumes nothing about it.
- `Levenshtein.ratio` and `fuzz.token_sort_ratio` are library code, taken as parameters. No range is assumed, and nothing is assumed about their handling of `None`. `ScoreStrict` and `ScoreTolerant` state the consequences of the two usual behaviours. Floating-point rounding, including the division by 100 in `fuzz_ratio`, is exact `real` arithmetic here.
- Python's Unicode `\w` class is a parameter of `Tighten`.
- Case mapping (`lower()`, `upper()`) is ASCII only. Non-ASCII letters keep their case in the model.
- Row order is not modelled: the `ORDER BY` clauses and polars sorts that only order output (crosswalking/universities.py:133, 216, 256, 323).
- UniversityFuzzy.TopHits: ties in score at the `LIMIT` cut-off are broken by the model's own insertion sort. The contracts state only what every tie-break satisfies.
- UniversityFuzzy.BestFuzzyMatch: the winner among rows tied on both `match_score` and `similarity_ratio` is unspecified, as in the code. The contract states only that the winner is maximal.
- Column plumbing is not modelled: `EXCLUDE`, `UNION ALL BY NAME` column alignment, the `selection` list of crosswalking/schools.py:175-192 and the crosswalk projection of crosswalking/universities.py:282-300. Rows are records of ids and key fields. A crosswalk row keeps the rows of each table it joined instead of their projected columns.
- The duplicate `name` and `state` columns of `select *` in `exact_matches` are stated once. Both agree, once lower-cased, in every exact match (`UniversityExact.ExactSidesAgree`).
- The SQL files (`hd.sql`, `ceeb_university.sql`, `nsc.sql`, `ceeb_school.sql`, `nces_school.sql`) are not part of this model. The tables they build are inputs.
- Connections, `ATTACH`, registering `tighten` as a DuckDB function, the `return_sql` switch and all `print` diagnostics are I/O.
- Downloads, ZIP extraction and the database appends of `NCES` and `IPEDS` (utils/nces.py:69-108, utils/ipeds.py:36-60) are I/O and database state.
- The CEEB look-ups run per chunk are network I/O. Only the chunking is modelled.
- `int(year)` parsing of a string year is not modelled. The year is an `int`.
- The unreachable `ValueError("This shouldn't happen.")` of `_convert_extracted_location` is not modelled. The school type is a datatype, so that case cannot arise.
- Tighten.TightenMergesRun: covers only a run ending the text or followed by one whitespace character and a non-whitespace character. Two other endings are not stated as lemmas, though `Tighten` models them. A trailing space, as in "u s a ", is taken into the match by `\s*`, so the whole text becomes "usa". A run followed by two or more whitespace characters, as in "a b c  school", backtracks after the `\s*` and keeps the last whitespace character for the lookahead. The match then ends one character before that whitespace, and its U+0020 characters are deleted, giving "abc school".
- IpedsNaming.IpedsNames: the paths are spelt out only for a non-empty table name and suffix without '/'. For other names, `NewIpeds` still computes them with POSIX `os.path.join`.
- NcesNaming.YearAbbDigits: the exact length is stated only for a two-digit `year % 1000` below 99. `YearAbbUnpadded` covers single digits. For every year, `YearAbbSplit` states the digits and how they split.
