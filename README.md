# ncaabb data pipeline — a Dafny model

This project models the data pipeline of `importio-ncaabb/fetch_data.py`. The pipeline
reads NCAA basketball tables (RPI, offense and defense, for men and for women)
from Import.io extractors, ranks them, and writes schools and dated snapshots
to a database. The model covers:

- **the record flattener** (`parse_resp`): pages of groups of rows become flat
  records. Each record holds a column's first cell `text` under the column's
  name and, for a link, its `src` under `<column>_link`;
- **the ranking step** of `clean_data`: a table is sorted by a stat and
  numbered 1..N;
- **the bootstrap** (`load_schools`): the outer join of the two RPI tables,
  sorted by team name, is classified into men's-only, women's-only and
  two-team schools. Each school is inserted on its own, and a duplicate is
  rolled back, as is an incomplete one on SQLite, where NaN becomes NULL;
- **the team snapshots** (`get_team_snapshots`): the RPI table is left-joined
  with the ranked offense and defense tables. Each merged row becomes a
  TeamSnapshot, with a NaN rank or stat recorded as None, and is committed row
  by row until a row raises (a NaN RPI rank, wins or losses raises at its
  commit);
- **the school snapshots** (`get_school_snapshots`): the inner join of the two
  categories, the integer RPI ranks, a score, and an overall rank 1..N in
  score order, committed together;
- **the refresh** (`get_snapshots`): men, then women, then schools.

Pure steps are functions over values. The modules are `Text`, `Sorting`,
`Tables`, `Joins`, `Parsing`, `Ranking`, `Schema`, `Bootstrap` and `Snapshots`.
The loops of the source are methods proved against those functions: the
flattener in `Parsing`, and the database writers in `Store.Database`, a class
whose fields are the stored schools and snapshots.

pandas behaviour is written out explicitly:

- `sort_values` promises a permutation ordered by its key, with rows lacking
  the key placed last (`na_position='last'`). It promises no order among equal
  keys. The model's sort is stable, which is one of the orders `sort_values`
  may produce. The ranking lemmas state only what pandas promises, but the
  contracts of `Store.Database` and `Snapshots.Refresh`, which fix the whole
  new state, describe that stable order only.
- `merge` pairs a row with every matching row of the other table.
- `astype(int)` raises on a missing or non-integer cell.
- `float(...)` reads `nan` as NaN and raises on other text that is not a number.

Where the code departs from what it evidently intends:

- The code does not sort stably (pandas' default sort). The model keeps ties
  in input order, one of the orders the code may produce.
- The school score is `rank_men + rank_women` halved. The model uses the sum,
  which orders schools the same way.
- The code sorts the per-game stats as text, not as numbers (see Findings).
  Both rankings are modelled: `Ranking.RankByText` as written and
  `Ranking.RankByValue` as intended. The merged tables, and so the stored
  offense and defense ranks, use the intended one; "## Left out" says so.

## Model

| member | source | states |
|---|---|---|
| Text.ReadFloat | importio-ncaabb/fetch_data.py:97-104 | a missing cell reads as NaN; the text `nan` (any case, signed) reads as NaN; a reading is a number exactly when the text is a decimal number; it raises exactly when the text is neither |
| Text.IntValueOfNatText | importio-ncaabb/fetch_data.py:118-119 | reading the decimal text of any natural rank gives that rank back |
| Text.LexLeTotal | importio-ncaabb/fetch_data.py:45 | any two team names are comparable in Python's string order |
| Text.LexLeTransitive | importio-ncaabb/fetch_data.py:45 | Python's string order is transitive |
| Text.LexLeAntisymmetric | importio-ncaabb/fetch_data.py:45 | two names that each sort no later than the other are equal |
| Sorting.SortBy | importio-ncaabb/fetch_data.py:45 | sorting keeps the length and the multiset of rows |
| Sorting.SortBySorted | importio-ncaabb/fetch_data.py:121 | under a total preorder, the sorted output is ordered pairwise |
| Sorting.ByKeyPreorder | importio-ncaabb/fetch_data.py:70 | ordering rows by an optional key, with rows lacking it last, is a total preorder |
| Joins.Matches | importio-ncaabb/fetch_data.py:81 | the right rows matching a key are exactly the right rows with that key |
| Joins.FirstMatch | importio-ncaabb/fetch_data.py:81-82 | the looked-up row has the key and is in the table; none is found exactly when no row has the key |
| Joins.LeftJoinMembers | importio-ncaabb/fetch_data.py:81-82 | every row of a left merge pairs a left row with a matching right row, or with NaN exactly when no right row matches |
| Joins.LeftJoinCovers | importio-ncaabb/fetch_data.py:81-82 | every left row appears in the left merge |
| Joins.LeftJoinHasPair | importio-ncaabb/fetch_data.py:81-82 | every matching left/right pair appears in the left merge |
| Joins.LeftJoinUnique | importio-ncaabb/fetch_data.py:81-82 | with unique right keys, the left merge keeps the left rows in order, one output row each |
| Joins.InnerJoinMembers | importio-ncaabb/fetch_data.py:117 | a pair is in the inner merge exactly when both rows are in their tables and their keys agree |
| Joins.OuterJoinMembers | importio-ncaabb/fetch_data.py:44 | every outer-merge row has at least one side; present sides come from their tables and agree on the key; a lone side has no partner anywhere |
| Joins.OuterJoinCoversLeft | importio-ncaabb/fetch_data.py:44 | every men's row appears in the outer merge |
| Joins.OuterJoinCoversRight | importio-ncaabb/fetch_data.py:44 | every women's row appears in the outer merge |
| Joins.OuterJoinHasPair | importio-ncaabb/fetch_data.py:44 | every matching men's/women's pair appears in the outer merge |
| Parsing.LinkKeyInjective | importio-ncaabb/fetch_data.py:24 | distinct columns get distinct `_link` keys |
| Parsing.BuildRecord | importio-ncaabb/fetch_data.py:20-26 | the column loop builds exactly the row's flat record, or raises the error of the first bad column |
| Parsing.FlattenGroup | importio-ncaabb/fetch_data.py:19-27 | the row loop appends each row's record in order, stopping at the first row that raises |
| Parsing.FlattenGroups | importio-ncaabb/fetch_data.py:18-27 | the group loop continues the records over the groups' rows in order |
| Parsing.ParseResp | importio-ncaabb/fetch_data.py:14-28 | `parse_resp` returns the records of all rows, page by page, group by group, or the first error |
| Parsing.FlattenRowsSpec | importio-ncaabb/fetch_data.py:14-28 | flattening succeeds exactly when every row does, giving one record per row in order; on failure the error is that of the first failing row |
| Parsing.ParseRespCount | importio-ncaabb/fetch_data.py:14-28 | a successful parse yields as many records as the pages hold rows |
| Parsing.FlattenRowSucceeds | importio-ncaabb/fetch_data.py:21-22 | a row flattens exactly when every column has a first cell with `text`; otherwise the error names a bad column |
| Parsing.FlattenRowKeys | importio-ncaabb/fetch_data.py:21-26 | a record's keys are the column names plus a `_link` key per column whose first cell has `src` |
| Parsing.FlattenRowValues | importio-ncaabb/fetch_data.py:21-26 | without key clashes, each column's key holds its first cell's text, and its `_link` key exists exactly when there is a `src` and then holds it |
| Parsing.OnlyOwnLink | importio-ncaabb/fetch_data.py:23-26 | without key clashes, a column's `_link` key is among the record's keys only when that column's first cell has a `src` |
| Ranking.RankBy | importio-ncaabb/fetch_data.py:70-72 | the ranked table is a permutation of the input, ranked 1..N by position, ordered by the stat wherever both rows have it |
| Ranking.MissingStatLast | importio-ncaabb/fetch_data.py:70 | in any ranking, every row after a row without the stat also lacks it: rows without the stat come last |
| Ranking.LexLePreorder | importio-ncaabb/fetch_data.py:70 | Python's string order is a total preorder, so `sort_values` on text is well defined |
| Ranking.RankByText | importio-ncaabb/fetch_data.py:70-72 | as written: the ranking orders the stat's text character by character |
| Ranking.RankByValue | importio-ncaabb/fetch_data.py:70-72 | as intended: the ranking orders the stat by numeric value |
| Ranking.OffenseRanking | importio-ncaabb/fetch_data.py:79 | as intended, not as written: offense ranking by numeric value, a permutation ranked 1..N, points per game non-increasing |
| Ranking.DefenseRanking | importio-ncaabb/fetch_data.py:80 | as intended, not as written: defense ranking by numeric value, a permutation ranked 1..N, opponent points per game non-decreasing |
| Ranking.HigherPointsFirst | importio-ncaabb/fetch_data.py:79 | of two teams with a points-per-game value, the one scoring strictly more is ranked first on offense |
| Ranking.TextRankingMisordersPoints | importio-ncaabb/fetch_data.py:70 | compared as text, 99.1 points per game ranks above 100.5 |
| Ranking.ValueRankingOrdersPoints | importio-ncaabb/fetch_data.py:70 | compared by value, 100.5 points per game ranks above 99.1 |
| Schema.FindSchool | importio-ncaabb/fetch_data.py:84 | the lookup returns a stored school of that name, and returns none exactly when the name is missing or unknown |
| Bootstrap.Classify | importio-ncaabb/fetch_data.py:46-56 | a women's team exactly when the women's side has a conference; a men's team when the men's side has one or the women's lacks one; the men's conference whenever a men's team is fielded |
| Bootstrap.AdmitStep | importio-ncaabb/fetch_data.py:57-63 | one insert keeps the stored schools as a prefix and names unique, and adds the name exactly when name and conference are present and new |
| Bootstrap.AdmitAllSpec | importio-ncaabb/fetch_data.py:46-63 | the inserts keep existing schools as a prefix and names unique; the stored names become the old ones plus every named, conferenced candidate |
| Bootstrap.AdmitAllIdempotent | importio-ncaabb/fetch_data.py:57-63 | running the bootstrap twice stores what running it once does |
| Bootstrap.AdmitAllRejected | importio-ncaabb/fetch_data.py:61-63 | when every candidate is rolled back, nothing changes |
| Bootstrap.AdmittedWhenAlone | importio-ncaabb/fetch_data.py:57-59 | a complete candidate whose name is new and unique among the candidates is stored as proposed |
| Bootstrap.AdmitKeeps | importio-ncaabb/fetch_data.py:57-63 | an insert never removes a stored school |
| Bootstrap.AdmittedNameHasCandidate | importio-ncaabb/fetch_data.py:57-59 | every newly stored name comes from a complete candidate |
| Bootstrap.AloneInJoin | importio-ncaabb/fetch_data.py:44-46 | a joined row whose name occurs in no other joined row yields the only candidate of that name |
| Bootstrap.MenOnlySchool | importio-ncaabb/fetch_data.py:47-49 | a new team with a men's row of unique name and no women's row is stored with the men's conference and a men's team only |
| Bootstrap.WomenOnlySchool | importio-ncaabb/fetch_data.py:50-52 | likewise for a women's-only team, with the women's conference |
| Bootstrap.BothTeamsSchool | importio-ncaabb/fetch_data.py:53-56 | a new team with a conference in both tables is stored with the men's conference and both teams |
| Snapshots.TeamRowsUnique | importio-ncaabb/fetch_data.py:81-82 | with unique offense and defense teams, the merged table is the RPI table in order, each row beside its team's offense and defense rows or NaN |
| Snapshots.SnapshotOf | importio-ncaabb/fetch_data.py:84-110 | a merged row yields a snapshot exactly when both stats are readable, the school fields a team of that category, and the RPI rank, wins and losses are present (NOT NULL); a reported missing column is indeed absent; the snapshot carries the RPI rank, wins, losses, the two ranks and the two stats, with a NaN rank or stat as None |
| Snapshots.MissingRankRaises | importio-ncaabb/fetch_data.py:86-110 | a known team's row without an RPI rank is not stored: its commit raises on the NOT NULL `rank` |
| Snapshots.CommittedComplete | importio-ncaabb/fetch_data.py:83-110 | a run reports no failure exactly when every row succeeds, and then commits every row's snapshot in order |
| Snapshots.CommittedStop | importio-ncaabb/fetch_data.py:83-110 | a failed run stops at the first failing row: the rows before it are committed in order and its error is reported |
| Snapshots.IntColumn | importio-ncaabb/fetch_data.py:118-119 | `astype(int)` succeeds exactly when every cell is present integer text, giving its value per cell; otherwise it names an unreadable cell |
| Snapshots.RpiCellsConvert | importio-ncaabb/fetch_data.py:118-119 | the RPI rank column converts exactly when every row has an integer RPI rank |
| Snapshots.ScoredSchoolsSucceed | importio-ncaabb/fetch_data.py:117-120 | scoring succeeds exactly when every inner-merged pair has integer RPI ranks on both sides |
| Snapshots.ScoredSchoolsValues | importio-ncaabb/fetch_data.py:117-120 | one scored school per merged pair, carrying that pair's team and two ranks |
| Snapshots.InnerJoinKeys | importio-ncaabb/fetch_data.py:117 | every merged pair takes a men's row and a women's row of the same team |
| Snapshots.ScoredSchoolsFromBoth | importio-ncaabb/fetch_data.py:117 | every scored school has a men's row and a women's row that carry its ranks |
| Snapshots.OverallRanksSpec | importio-ncaabb/fetch_data.py:120-123 | the overall ranking is a permutation of the scored schools, ranked 1..N by position, with score non-decreasing |
| Snapshots.LowestScoreRanksFirst | importio-ncaabb/fetch_data.py:120-123 | a school whose score is strictly below every other's is ranked 1 |
| Snapshots.SingleSchoolExample | importio-ncaabb/fetch_data.py:117-123 | a school ranked 2 by the men and 4 by the women, alone in both tables, is ranked 1 overall |
| Snapshots.SchoolSnapshotsSpec | importio-ncaabb/fetch_data.py:124-127 | the school snapshots exist exactly when every ranked team names a stored school; each then carries that school, the date and the overall rank |
| Snapshots.SchoolStageSpec | importio-ncaabb/fetch_data.py:115-128 | a successful school stage writes one snapshot per merged pair, ranked 1..N, on the given date |
| Snapshots.SchoolStageFromBoth | importio-ncaabb/fetch_data.py:117-125 | every school snapshot names a stored school that has rows in both categories |
| Snapshots.ScoredInBoth | importio-ncaabb/fetch_data.py:117 | a scored team appears in both categories' tables |
| Snapshots.CompletedRun | importio-ncaabb/fetch_data.py:81-110 | with one offense and one defense row per team at most, a run without failure gives one snapshot per RPI row, in order, for that team and category |
| Snapshots.RefreshStages | importio-ncaabb/fetch_data.py:132-138 | the refresh reports no failure exactly when every stage succeeds; a complete refresh stores the men's team snapshots, then the women's, then the school stage's snapshots; only a complete refresh stores school snapshots |
| Snapshots.RefreshComplete | importio-ncaabb/fetch_data.py:132-138 | a successful refresh stores one snapshot per men's RPI row followed by one per women's RPI row |
| Store.Database.constructor | importio-ncaabb/app.py:68-71 | the freshly created database, before the bootstrap, holds no schools and no snapshots, and names are unique |
| Store.Database.AddSchool | importio-ncaabb/fetch_data.py:57-63 | one add and commit: stored exactly when admissible, rolled back otherwise (an incomplete school as on SQLite); names stay unique; snapshots untouched |
| Store.Database.LoadSchools | importio-ncaabb/fetch_data.py:40-63 | the schools become the bootstrap of the two RPI tables (outer merge, sorted by team, each row classified and inserted); names stay unique; snapshots untouched |
| Store.Database.AddSchools | importio-ncaabb/fetch_data.py:46-63 | the loop over the joined rows stores exactly what the inserts of their classified candidates, in order, store; names stay unique; snapshots untouched |
| Store.Database.SaveTeamSnapshots | importio-ncaabb/fetch_data.py:76-112 | returns the merged table, appends the committed snapshots of one category's run, and reports the run's failure |
| Store.Database.CommitTeamSnapshots | importio-ncaabb/fetch_data.py:83-110 | the commit loop appends exactly the snapshots committed before the first failing row and reports that failure |
| Store.Database.SaveSchoolSnapshots | importio-ncaabb/fetch_data.py:115-129 | on success all school snapshots are appended at once; on failure none are, and the error is reported |
| Store.Database.CollectSchoolSnapshots | importio-ncaabb/fetch_data.py:124-127 | the snapshots collected for the session are exactly the specified ones, or the loop reports the first ranked team without a stored school |
| Store.Database.GetSnapshots | importio-ncaabb/fetch_data.py:132-138 | the refresh appends the team and school snapshots that the refresh specification gives, and reports its failure; schools untouched |
| Store.Database.RefreshWith | importio-ncaabb/fetch_data.py:135-137 | the men's run, then the rest of the refresh, over the two merged tables |
| Store.Database.FinishRefresh | importio-ncaabb/fetch_data.py:136-137 | after a complete men's run: the women's run, then the school snapshots |

## Left out

- `importio-ncaabb/extractor.py` (the HTTP client) is not part of this model. The decoded JSON pages are a parameter of `Parsing.ParseResp`.
- The path `result.extractorData.data` is not modelled: a `Parsing.Page` holds its `data` directly. A missing key on that path (a KeyError) is not modelled.
- Parsing.Group: holds its rows directly, so a group without the key `group` (a KeyError at `importio-ncaabb/fetch_data.py:19`) is not modelled.
- Tables.Table: is the list of flattened records, standing for the frame `DataFrame.from_records` builds. That frame has only the columns some record holds, so pandas raises a KeyError when `sort_values` or `merge` names a column that no record has, for example on an empty extractor run. The model has no column set: such a cell reads as NaN row by row, and the run goes on.
- Store.Database.LoadSchools: admits the schools of one RPI table when the other has no `Team` column (for example, it is empty), where `load_schools` raises at the merge.
- Store.Database.GetSnapshots: commits a category's rows with NaN ranks when its offense or defense table has no `PPG`/`OPPG` or `Team` column (for example, it is empty), where `get_team_snapshots` raises before committing any row. It also stores the intended, numeric offense and defense ranks (below).
- `config.yaml` and the extractor IDs are not modelled; each table is passed in.
- `importio-ncaabb/app.py` (the Flask views) is not part of this model, apart from the empty database it creates (`Store.Database.constructor`).
- Database internals are not modelled: sessions, autoflush and SQLAlchemy relationships. The database is the `Store.Database` class.
- Constraints in `importio-ncaabb/database.py` are modelled only where the pipeline trips them: the unique, non-null school name and conference, the non-null team and school of a snapshot, and the non-null `rank`, `wins` and `losses` of a team snapshot. The `String(40)` length limits are not modelled.
- `datetime.date.today()` is a `Date` parameter.
- `print` output is not modelled.
- `math.isnan` on a rank column is modelled by `Option`; NaN is the merge's missing row.
- Snapshots.SchoolSnapshotsOf: reports the first ranked team without a stored school. The source raises the IntegrityError at flush or commit time. Either way nothing is stored.
- Store.Database.GetSnapshots: computes both categories' merged tables before the men's commits begin. The source fetches and merges the women's tables after the men's run. The merges are pure, so only the order of the network reads differs.
- Text.ReadFloat: accepts plain decimal text only, as does `Text.IntValue`: an optional sign, digits and a point. Python's exponents, `inf`, underscores and surrounding whitespace are not modelled.
- Sorting.SortBy: a stable insertion sort stands in for pandas' quicksort. The sorting and ranking lemmas promise only what pandas does: the order by the key, and rows without the key last (`Ranking.MissingStatLast`). The state contracts of `Store.Database`, and `Snapshots.Refresh` behind them, fix the stable order, so they describe one of the orders pandas may produce, not every one. Which of two tied schools gets the better overall rank, which of two tied teams the better offense or defense rank, and which of two rows with the same name `load_schools` stores, may differ in the source.
- Ranking.OffenseRanking: ranks `PPG` by numeric value, the intended behaviour, not by text as `importio-ncaabb/fetch_data.py:70` does (see Findings). A cell that is no decimal number counts as missing.
- Ranking.DefenseRanking: ranks `OPPG` by numeric value, not by text, for the same reason.
- Snapshots.MergedRows: is built on `Ranking.OffenseRanking` and `Ranking.DefenseRanking`, so every refresh stores the intended offense and defense ranks. Where text order and numeric order differ (`"99.1"` against `"100.5"`), the source stores other `off_rank` and `def_rank` values.
- Store.Database.SaveTeamSnapshots: stores the numerically ranked `off_rank` and `def_rank` of `Snapshots.MergedRows`, not the text-ranked ones the source stores.
- Bootstrap.Admissible: treats a school without a name or conference (NaN) as a NOT NULL violation that is rolled back. That is what SQLite does, since it stores NaN as NULL. On PostgreSQL the NaN is stored as the text `NaN`, so the school is kept. On MySQL the driver refuses NaN with an error that is not an IntegrityError, so `load_schools` stops. The model follows SQLite.
- Store.Database.AddSchool: rolls back an incomplete school, as on SQLite only (see `Bootstrap.Admissible`).
- Column-name collisions in `merge` (pandas' `_x`/`_y` suffixes) are not modelled: each side of a merged row is kept as its own record.
- Snapshots.Score: is the sum of the two RPI ranks, not their mean (the source halves the sum). The two give the same order.

## Findings

| source | as written | input that shows it | evidently intended | confidence | as-written member | corrected member |
|---|---|---|---|---|---|---|
| importio-ncaabb/fetch_data.py:70 | `sort_values('PPG')` and `sort_values('OPPG')` sort the text the extractor returns, character by character | PPG cells "100.5" and "99.1", descending: "99.1" is ranked first | rank by the numeric value of points per game (most first) and opponent points per game (fewest first) | not executed; high, since `parse_resp` stores every cell as its `text` string | Ranking.RankByText, Ranking.TextRankingMisordersPoints | Ranking.RankByValue, Ranking.ValueRankingOrdersPoints |
