/**
 * The refresh: `get_team_snapshots` merges a category's RPI table with its
 * ranked offense and defense tables and turns each merged row into a
 * TeamSnapshot, recording a missing (NaN) stat as None;
 * `get_school_snapshots` inner-joins the two categories on the team name,
 * scores each school by its two RPI ranks and ranks the schools by score.
 */
module Snapshots {
  import opened Wrappers
  import opened Tables
  import opened Text
  import opened Sorting
  import opened Joins
  import opened Ranking
  import opened Schema

  const RpiRankColumn: string := "RPI Rank"
  const WinsColumn: string := "Wins"
  const LossesColumn: string := "Losses"

  /** A row of the merged table: the RPI row beside the team's ranked offense and defense rows, each possibly NaN. */
  datatype TeamRow = TeamRow(rpi: Record, offense: Option<Ranked>, defense: Option<Ranked>)

  /** The exceptions that abort a refresh. */
  datatype SnapshotError =
    | InvalidNumber(text: string)                     // float() of a stat's text raises ValueError
    | UnknownTeam(name: Option<string>, teamType: TeamType)  // a snapshot without a team fails the NOT NULL constraint
    | InvalidRank(cell: Option<string>)               // astype(int) of an RPI rank raises
    | UnknownSchool(name: Option<string>)             // a school snapshot without a school fails the NOT NULL constraint
    | MissingValue(column: string)                    // a NaN RPI rank, wins or losses fails its NOT NULL constraint

  function RankedTeam(r: Ranked): Option<string>
  {
    TeamOf(r.row)
  }

  function RowTeam(p: (Record, Option<Ranked>)): Option<string>
  {
    TeamOf(p.0)
  }

  /** `teams.merge(offense, how='left', on='Team').merge(defense, how='left', on='Team')`. */
  function TeamRows(rpi: Table, offense: seq<Ranked>, defense: seq<Ranked>): seq<TeamRow>
  {
    var first := LeftJoin(rpi, offense, TeamOf, RankedTeam);
    var second := LeftJoin(first, defense, RowTeam, RankedTeam);
    seq(|second|, i requires 0 <= i < |second| => TeamRow(second[i].0.0, second[i].0.1, second[i].1))
  }

  /**
   * With one offense row and one defense row per team at most, the merged
   * table has the RPI rows in order, each beside its team's offense and
   * defense rows, NaN where a table has none.
   */
  lemma TeamRowsUnique(rpi: Table, offense: seq<Ranked>, defense: seq<Ranked>)
    requires UniqueKeys(offense, RankedTeam) && UniqueKeys(defense, RankedTeam)
    ensures |TeamRows(rpi, offense, defense)| == |rpi|
    ensures forall i :: 0 <= i < |rpi| ==>
      TeamRows(rpi, offense, defense)[i] ==
        TeamRow(rpi[i], FirstMatch(offense, RankedTeam, TeamOf(rpi[i])), FirstMatch(defense, RankedTeam, TeamOf(rpi[i])))
  {
    var first := LeftJoin(rpi, offense, TeamOf, RankedTeam);
    LeftJoinUnique(rpi, offense, TeamOf, RankedTeam);
    LeftJoinUnique(first, defense, RowTeam, RankedTeam);
  }

  /** `None if isnan(float(x)) else x` for a per-game stat; text that float() cannot read raises. */
  function OptionalStat(cell: Option<string>): (r: Result<Option<string>, SnapshotError>)
    ensures r.Success? && r.value.None? <==> ReadFloat(cell) == NotANumber
    ensures r.Success? && r.value.Some? <==> ReadFloat(cell).Number?
    ensures r.Success? && r.value.Some? ==> r.value == cell
    ensures r.Failure? <==> ReadFloat(cell) == Invalid
    ensures r.Failure? ==> cell.Some? && r.error == InvalidNumber(cell.value)
  {
    match ReadFloat(cell)
    case NotANumber => Success(None)
    case Number(_) => Success(cell)
    case Invalid => Failure(InvalidNumber(cell.value))
  }

  /** `None if isnan(x) else x` for a rank column: NaN exactly where the merge found no row. */
  function OptionalRank(r: Option<Ranked>): (o: Option<nat>)
    ensures o.None? <==> r.None?
    ensures o.Some? ==> o.value == r.value.rank
  {
    if r.Some? then Some(r.value.rank) else None
  }

  /** The merged row's `PPG` cell: NaN when there is no offense row or it lacks the column. */
  function PointsCell(row: TeamRow): Option<string>
  {
    if row.offense.Some? then Field(row.offense.value.row, PointsColumn) else None
  }

  function OpponentPointsCell(row: TeamRow): Option<string>
  {
    if row.defense.Some? then Field(row.defense.value.row, OpponentPointsColumn) else None
  }

  /** The team lookup: the school of that name fields a team of that category. */
  predicate HasTeam(schools: seq<School>, name: Option<string>, teamType: TeamType)
  {
    var s := FindSchool(schools, name);
    s.Some? && teamType in s.value.teams
  }

  /** The RPI row has the columns that the snapshot table declares NOT NULL. */
  predicate HasRecord(rpi: Record)
  {
    RpiRankColumn in rpi && WinsColumn in rpi && LossesColumn in rpi
  }

  /** The first of the RPI rank, wins and losses cells that is NaN, if any. */
  function MissingRecord(rpi: Record): (c: Option<string>)
    ensures c.None? <==> HasRecord(rpi)
    ensures c.Some? ==> c.value !in rpi && c.value in {RpiRankColumn, WinsColumn, LossesColumn}
  {
    if RpiRankColumn !in rpi then Some(RpiRankColumn)
    else if WinsColumn !in rpi then Some(WinsColumn)
    else if LossesColumn !in rpi then Some(LossesColumn)
    else None
  }

  /**
   * The snapshot one merged row yields, or the exception it raises: float()
   * of a stat, then, at the commit, a missing team or a NaN in a NOT NULL
   * column.
   */
  function SnapshotOf(schools: seq<School>, teamType: TeamType, date: Date, row: TeamRow): (r: Result<TeamSnapshot, SnapshotError>)
    ensures r.Success? <==>
      ReadFloat(PointsCell(row)) != Invalid && ReadFloat(OpponentPointsCell(row)) != Invalid &&
      HasTeam(schools, TeamOf(row.rpi), teamType) && HasRecord(row.rpi)
    ensures r.Failure? && r.error.MissingValue? ==> r.error.column !in row.rpi
    ensures r.Success? ==>
      var s := r.value;
      && Some(s.school) == TeamOf(row.rpi) && s.teamType == teamType && s.date == date
      && s.rank == row.rpi[RpiRankColumn]
      && s.wins == row.rpi[WinsColumn] && s.losses == row.rpi[LossesColumn]
      && (s.offRank.None? <==> row.offense.None?) && (s.defRank.None? <==> row.defense.None?)
      && (row.offense.Some? ==> s.offRank == Some(row.offense.value.rank))
      && (row.defense.Some? ==> s.defRank == Some(row.defense.value.rank))
      && (s.ppg.None? <==> ReadFloat(PointsCell(row)) == NotANumber) && (s.ppg.Some? ==> s.ppg == PointsCell(row))
      && (s.oppg.None? <==> ReadFloat(OpponentPointsCell(row)) == NotANumber) && (s.oppg.Some? ==> s.oppg == OpponentPointsCell(row))
  {
    match OptionalStat(PointsCell(row))
    case Failure(e) => Failure(e)
    case Success(ppg) =>
      match OptionalStat(OpponentPointsCell(row))
      case Failure(e) => Failure(e)
      case Success(oppg) =>
        var name := TeamOf(row.rpi);
        if !HasTeam(schools, name, teamType) then Failure(UnknownTeam(name, teamType))
        else if MissingRecord(row.rpi).Some? then Failure(MissingValue(MissingRecord(row.rpi).value))
        else
          Success(TeamSnapshot(name.value, teamType, date,
            row.rpi[RpiRankColumn], row.rpi[WinsColumn], row.rpi[LossesColumn],
            OptionalRank(row.offense), OptionalRank(row.defense), ppg, oppg))
  }

  /** A row of a known team without an RPI rank cell is not stored: its commit raises. */
  lemma MissingRankRaises(date: Date)
    ensures SnapshotOf([School("A", "X", [Men])], Men, date, TeamRow(map[TeamColumn := "A"], None, None))
      == Failure(MissingValue(RpiRankColumn))
  {
    assert FindSchool([School("A", "X", [Men])], Some("A")) == Some(School("A", "X", [Men]));
  }

  /** The snapshots a run over the merged rows commits, and the exception that stopped it, if any. */
  datatype Partial = Partial(done: seq<TeamSnapshot>, failure: Option<SnapshotError>)

  /** What each merged row yields, in order. */
  function Outcomes(schools: seq<School>, teamType: TeamType, date: Date, rows: seq<TeamRow>): seq<Result<TeamSnapshot, SnapshotError>>
  {
    seq(|rows|, i requires 0 <= i < |rows| => SnapshotOf(schools, teamType, date, rows[i]))
  }

  /** Each row's snapshot is committed before the next row is read; the first exception ends the run. */
  function Committed(results: seq<Result<TeamSnapshot, SnapshotError>>): Partial
    decreases |results|
  {
    if results == [] then Partial([], None)
    else
      var prev := Committed(results[..|results| - 1]);
      if prev.failure.Some? then prev
      else match results[|results| - 1]
        case Failure(e) => Partial(prev.done, Some(e))
        case Success(s) => Partial(prev.done + [s], None)
  }

  /** The run of `get_team_snapshots` over the merged rows. */
  function TeamSnapshots(schools: seq<School>, teamType: TeamType, date: Date, rows: seq<TeamRow>): Partial
  {
    Committed(Outcomes(schools, teamType, date, rows))
  }

  /**
   * A run completes exactly when every row yields a snapshot, and then it
   * commits one per row, in order.
   */
  lemma {:induction false} CommittedComplete(results: seq<Result<TeamSnapshot, SnapshotError>>)
    ensures Committed(results).failure.None? <==> forall i :: 0 <= i < |results| ==> results[i].Success?
    ensures Committed(results).failure.None? ==>
      |Committed(results).done| == |results| &&
      forall i :: 0 <= i < |results| ==> Committed(results).done[i] == results[i].value
    decreases |results|
  {
    if results != [] {
      var n := |results| - 1;
      var init := results[..n];
      CommittedComplete(init);
      assert forall i :: 0 <= i < n ==> init[i] == results[i];
    }
  }

  /** Result `k` is the first failure; the run reports it after committing the snapshots before it. */
  predicate FailsFirstAt(results: seq<Result<TeamSnapshot, SnapshotError>>, k: int, p: Partial)
  {
    && 0 <= k < |results| && |p.done| == k
    && results[k].Failure? && p.failure == Some(results[k].error)
    && forall i :: 0 <= i < k ==> results[i].Success? && p.done[i] == results[i].value
  }

  /**
   * A run that stops commits the snapshots of the rows before the first
   * failing row and reports that row's exception.
   */
  lemma {:induction false} CommittedStop(results: seq<Result<TeamSnapshot, SnapshotError>>)
    ensures Committed(results).failure.Some? ==> exists k :: FailsFirstAt(results, k, Committed(results))
    decreases |results|
  {
    if results != [] {
      var n := |results| - 1;
      var init := results[..n];
      var prev := Committed(init);
      var p := Committed(results);
      CommittedStop(init);
      if prev.failure.Some? {
        var k :| FailsFirstAt(init, k, prev);
        assert FailsFirstAt(results, k, p);
      } else if p.failure.Some? {
        CommittedComplete(init);
        assert FailsFirstAt(results, n, p);
      }
    }
  }

  /** One more row of a run that has not stopped: its snapshot is committed, or its exception stops the run. */
  lemma CommittedStep(results: seq<Result<TeamSnapshot, SnapshotError>>, i: nat)
    requires i < |results| && Committed(results[..i]).failure.None?
    ensures results[i].Failure? ==> Committed(results[..i + 1]) == Partial(Committed(results[..i]).done, Some(results[i].error))
    ensures results[i].Success? ==> Committed(results[..i + 1]) == Partial(Committed(results[..i]).done + [results[i].value], None)
  {
    assert results[..i + 1][..i] == results[..i];
  }

  /** Once a run has stopped, the rows after the stopping point change nothing. */
  lemma {:induction false} CommittedPersists(results: seq<Result<TeamSnapshot, SnapshotError>>, n: nat)
    requires n <= |results|
    requires n == |results| || Committed(results[..n]).failure.Some?
    ensures Committed(results) == Committed(results[..n])
    decreases |results|
  {
    if n < |results| {
      var init := results[..|results| - 1];
      assert init[..n] == results[..n];
      CommittedPersists(init, n);
    } else {
      assert results[..n] == results;
    }
  }

  // ----- The school ranking -----

  /** A school present in both categories with its two integer RPI ranks. */
  datatype Scored = Scored(team: Option<string>, menRank: int, womenRank: int)

  /** Twice the composite score `(men + women) / 2`; it orders schools as the score does. */
  function Score(s: Scored): int
  {
    s.menRank + s.womenRank
  }

  /** A scored school with its overall rank. */
  datatype RankedSchool = RankedSchool(school: Scored, rank: nat)

  function MergedTeam(row: TeamRow): Option<string>
  {
    TeamOf(row.rpi)
  }

  /** The text of a row's RPI rank reads as an integer. */
  predicate IntegerRank(row: TeamRow)
  {
    var cell := Field(row.rpi, RpiRankColumn);
    cell.Some? && IntValue(cell.value).Some?
  }

  /** `astype(int)` of a column: every cell converted, or the first one that cannot be. */
  function IntColumn(cells: seq<Option<string>>): (r: Result<seq<int>, SnapshotError>)
    ensures r.Success? <==> forall i :: 0 <= i < |cells| ==> cells[i].Some? && IntValue(cells[i].value).Some?
    ensures r.Success? ==>
      && |r.value| == |cells|
      && forall i :: 0 <= i < |cells| ==> cells[i].Some? && IntValue(cells[i].value) == Some(r.value[i])
    ensures r.Failure? ==>
      exists i :: 0 <= i < |cells| && r.error == InvalidRank(cells[i]) && (cells[i].None? || IntValue(cells[i].value).None?)
  {
    if cells == [] then Success([])
    else
      var head := if cells[0].Some? then IntValue(cells[0].value) else None;
      if head.None? then Failure(InvalidRank(cells[0]))
      else match IntColumn(cells[1..])
        case Failure(e) => Failure(e)
        case Success(rest) => Success([head.value] + rest)
  }

  function RpiCells(rows: seq<TeamRow>): seq<Option<string>>
  {
    seq(|rows|, i requires 0 <= i < |rows| => Field(rows[i].rpi, RpiRankColumn))
  }

  function IntOrder(): (int, int) -> bool
  {
    (a: int, b: int) => a <= b
  }

  function ScoreKey(s: Scored): Option<int>
  {
    Some(Score(s))
  }

  function MenSide(pairs: seq<(TeamRow, TeamRow)>): seq<TeamRow>
  {
    seq(|pairs|, i requires 0 <= i < |pairs| => pairs[i].0)
  }

  function WomenSide(pairs: seq<(TeamRow, TeamRow)>): seq<TeamRow>
  {
    seq(|pairs|, i requires 0 <= i < |pairs| => pairs[i].1)
  }

  /** `men.merge(women, how='inner', on='Team')`. */
  function JoinedPairs(men: seq<TeamRow>, women: seq<TeamRow>): seq<(TeamRow, TeamRow)>
  {
    InnerJoin(men, women, MergedTeam, MergedTeam)
  }

  /** The inner join of the two categories on the team name, each pair with its two RPI ranks. */
  function ScoredSchools(men: seq<TeamRow>, women: seq<TeamRow>): Result<seq<Scored>, SnapshotError>
  {
    var pairs := JoinedPairs(men, women);
    match IntColumn(RpiCells(MenSide(pairs)))
    case Failure(e) => Failure(e)
    case Success(menRanks) =>
      match IntColumn(RpiCells(WomenSide(pairs)))
      case Failure(e) => Failure(e)
      case Success(womenRanks) =>
        Success(seq(|pairs|, i requires 0 <= i < |pairs| => Scored(MergedTeam(pairs[i].0), menRanks[i], womenRanks[i])))
  }

  /** `s` is the school of the men's row `m` and the women's row `w`, scored by their RPI ranks. */
  predicate RanksOf(s: Scored, m: TeamRow, w: TeamRow)
  {
    && MergedTeam(m) == s.team && MergedTeam(w) == s.team
    && Field(m.rpi, RpiRankColumn).Some? && IntValue(Field(m.rpi, RpiRankColumn).value) == Some(s.menRank)
    && Field(w.rpi, RpiRankColumn).Some? && IntValue(Field(w.rpi, RpiRankColumn).value) == Some(s.womenRank)
  }

  /** A column of RPI ranks converts exactly when every row's rank reads as an integer. */
  lemma RpiCellsConvert(rows: seq<TeamRow>)
    ensures IntColumn(RpiCells(rows)).Success? <==> forall i :: 0 <= i < |rows| ==> IntegerRank(rows[i])
    ensures IntColumn(RpiCells(rows)).Success? ==>
      forall i :: 0 <= i < |rows| ==>
        Field(rows[i].rpi, RpiRankColumn).Some? &&
        IntValue(Field(rows[i].rpi, RpiRankColumn).value) == Some(IntColumn(RpiCells(rows)).value[i])
  {
    var cells := RpiCells(rows);
    assert forall i :: 0 <= i < |rows| ==> cells[i] == Field(rows[i].rpi, RpiRankColumn);
  }

  /** Scoring succeeds exactly when every joined pair's two RPI ranks read as integers. */
  lemma ScoredSchoolsSucceed(men: seq<TeamRow>, women: seq<TeamRow>)
    ensures ScoredSchools(men, women).Success? <==>
      forall i :: 0 <= i < |JoinedPairs(men, women)| ==>
        IntegerRank(JoinedPairs(men, women)[i].0) && IntegerRank(JoinedPairs(men, women)[i].1)
  {
    var pairs := JoinedPairs(men, women);
    var ms, ws := MenSide(pairs), WomenSide(pairs);
    var menOk := IntColumn(RpiCells(ms)).Success?;
    var womenOk := IntColumn(RpiCells(ws)).Success?;
    assert ScoredSchools(men, women).Success? <==> menOk && womenOk;
    assert menOk <==> forall i :: 0 <= i < |pairs| ==> IntegerRank(pairs[i].0) by {
      RpiCellsConvert(ms);
      assert forall i :: 0 <= i < |pairs| ==> ms[i] == pairs[i].0;
    }
    assert womenOk <==> forall i :: 0 <= i < |pairs| ==> IntegerRank(pairs[i].1) by {
      RpiCellsConvert(ws);
      assert forall i :: 0 <= i < |pairs| ==> ws[i] == pairs[i].1;
    }
    assert (forall i :: 0 <= i < |pairs| ==> IntegerRank(pairs[i].0) && IntegerRank(pairs[i].1)) <==> menOk && womenOk;
  }

  /** A successful scoring scores each joined pair, in join order, by its two RPI ranks. */
  lemma ScoredSchoolsValues(men: seq<TeamRow>, women: seq<TeamRow>)
    requires ScoredSchools(men, women).Success?
    ensures var pairs := JoinedPairs(men, women);
      && |ScoredSchools(men, women).value| == |pairs|
      && forall i :: 0 <= i < |pairs| ==> RanksOf(ScoredSchools(men, women).value[i], pairs[i].0, pairs[i].1)
  {
    var pairs := JoinedPairs(men, women);
    RpiCellsConvert(MenSide(pairs));
    RpiCellsConvert(WomenSide(pairs));
    InnerJoinKeys(men, women);
    var scored := ScoredSchools(men, women).value;
    var menRanks := IntColumn(RpiCells(MenSide(pairs))).value;
    var womenRanks := IntColumn(RpiCells(WomenSide(pairs))).value;
    forall i | 0 <= i < |pairs| ensures RanksOf(scored[i], pairs[i].0, pairs[i].1) {
      assert scored[i] == Scored(MergedTeam(pairs[i].0), menRanks[i], womenRanks[i]);
      assert MenSide(pairs)[i] == pairs[i].0 && WomenSide(pairs)[i] == pairs[i].1;
      InnerJoinMembers(men, women, MergedTeam, MergedTeam, pairs[i]);
    }
  }

  /** The two rows of a joined pair belong to the same team. */
  lemma InnerJoinKeys(men: seq<TeamRow>, women: seq<TeamRow>)
    ensures var pairs := JoinedPairs(men, women);
      forall i :: 0 <= i < |pairs| ==> pairs[i].0 in men && pairs[i].1 in women && MergedTeam(pairs[i].0) == MergedTeam(pairs[i].1)
  {
    var pairs := JoinedPairs(men, women);
    forall i | 0 <= i < |pairs|
      ensures pairs[i].0 in men && pairs[i].1 in women && MergedTeam(pairs[i].0) == MergedTeam(pairs[i].1)
    {
      InnerJoinMembers(men, women, MergedTeam, MergedTeam, pairs[i]);
    }
  }

  /**
   * Only teams of both categories are scored: every scored school is the
   * team of a men's row and of a women's row, scored by their RPI ranks.
   */
  lemma ScoredSchoolsFromBoth(men: seq<TeamRow>, women: seq<TeamRow>)
    requires ScoredSchools(men, women).Success?
    ensures forall s :: s in ScoredSchools(men, women).value ==>
      exists m, w :: m in men && w in women && RanksOf(s, m, w)
  {
    var pairs := JoinedPairs(men, women);
    var scored := ScoredSchools(men, women).value;
    ScoredSchoolsValues(men, women);
    InnerJoinKeys(men, women);
    forall s | s in scored
      ensures exists m, w :: m in men && w in women && RanksOf(s, m, w)
    {
      var i :| 0 <= i < |scored| && scored[i] == s;
      assert RanksOf(s, pairs[i].0, pairs[i].1);
    }
  }

  /** Sorted ascending by score and numbered 1..N. */
  function OverallRanks(scored: seq<Scored>): seq<RankedSchool>
  {
    var sorted := SortBy(scored, ByKey(ScoreKey, IntOrder()));
    seq(|sorted|, i requires 0 <= i < |sorted| => RankedSchool(sorted[i], i + 1))
  }

  /** The school ranking of `get_school_snapshots`. */
  function SchoolRanking(men: seq<TeamRow>, women: seq<TeamRow>): Result<seq<RankedSchool>, SnapshotError>
  {
    match ScoredSchools(men, women)
    case Failure(e) => Failure(e)
    case Success(scored) => Success(OverallRanks(scored))
  }

  /** The schools of a ranking, ranks dropped. */
  function SchoolsOf(out: seq<RankedSchool>): (r: seq<Scored>)
    ensures |r| == |out|
  {
    seq(|out|, i requires 0 <= i < |out| => out[i].school)
  }

  /**
   * The overall ranking ranks exactly the scored schools, each once,
   * numbers them 1..N by position and never goes down in score.
   */
  lemma OverallRanksSpec(scored: seq<Scored>)
    ensures var out := OverallRanks(scored);
      && |out| == |scored|
      && multiset(SchoolsOf(out)) == multiset(scored)
      && (forall i :: 0 <= i < |out| ==> out[i].rank == i + 1)
      && (forall i, j :: 0 <= i < j < |out| ==> Score(out[i].school) <= Score(out[j].school))
  {
    var le := ByKey(ScoreKey, IntOrder());
    ByKeyPreorder(ScoreKey, IntOrder());
    SortBySorted(scored, le);
    var sorted := SortBy(scored, le);
    var out := OverallRanks(scored);
    forall i, j | 0 <= i < j < |out| ensures Score(out[i].school) <= Score(out[j].school) {
      assert le(sorted[i], sorted[j]);
      assert MissingLast(IntOrder(), ScoreKey(sorted[i]), ScoreKey(sorted[j]));
      assert out[i].school == sorted[i] && out[j].school == sorted[j];
    }
    assert SchoolsOf(out) == sorted;
  }

  /** A school with a strictly lower score than every other one is ranked first. */
  lemma LowestScoreRanksFirst(scored: seq<Scored>, k: nat)
    requires k < |scored|
    requires forall i :: 0 <= i < |scored| && i != k ==> Score(scored[k]) < Score(scored[i])
    ensures OverallRanks(scored)[0] == RankedSchool(scored[k], 1)
  {
    var le := ByKey(ScoreKey, IntOrder());
    ByKeyPreorder(ScoreKey, IntOrder());
    SortBySorted(scored, le);
    var sorted := SortBy(scored, le);
    assert scored[k] in multiset(sorted);
    var j :| 0 <= j < |sorted| && sorted[j] == scored[k];
    assert sorted[0] in multiset(scored);
    var i :| 0 <= i < |scored| && scored[i] == sorted[0];
    assert Score(sorted[0]) <= Score(sorted[j]) by {
      if j != 0 {
        assert le(sorted[0], sorted[j]);
        assert MissingLast(IntOrder(), ScoreKey(sorted[0]), ScoreKey(sorted[j]));
      }
    }
    assert Score(scored[i]) <= Score(scored[k]);
    assert sorted[0] == scored[k];
  }

  lemma RankCell(text: string, n: int)
    requires IntValue(text) == Some(n)
    ensures IntColumn([Some(text)]) == Success([n])
  {
    var cells := [Some(text)];
    assert cells[1..] == [];
    assert IntColumn(cells[1..]) == Success([]);
    assert [n] + [] == [n];
  }

  /**
   * A school ranked 2nd among men and 4th among women, alone in both
   * tables: its doubled score is 6 (a composite score of 3) and it ranks 1st.
   */
  lemma SingleSchoolExample()
    ensures
      var men := [TeamRow(map[TeamColumn := "A", "Conference" := "X", RpiRankColumn := "2"], None, None)];
      var women := [TeamRow(map[TeamColumn := "A", "Conference" := "X", RpiRankColumn := "4"], None, None)];
      SchoolRanking(men, women) == Success([RankedSchool(Scored(Some("A"), 2, 4), 1)])
  {
    var men := [TeamRow(map[TeamColumn := "A", "Conference" := "X", RpiRankColumn := "2"], None, None)];
    var women := [TeamRow(map[TeamColumn := "A", "Conference" := "X", RpiRankColumn := "4"], None, None)];
    assert Matches(women, MergedTeam, MergedTeam(men[0])) == women;
    var pairs := JoinedPairs(men, women);
    assert men[1..] == [];
    assert InnerJoin(men[1..], women, MergedTeam, MergedTeam) == [];
    assert Pairs(men[0], women) == [(men[0], women[0])];
    assert pairs == [(men[0], women[0])];
    assert IntValue("2") == Some(2) && IntValue("4") == Some(4) by {
      assert "2"[..0] == "" && "4"[..0] == "";
    }
    assert RpiCells(MenSide(pairs)) == [Some("2")];
    assert RpiCells(WomenSide(pairs)) == [Some("4")];
    RankCell("2", 2);
    RankCell("4", 4);
    var x := Scored(Some("A"), 2, 4);
    assert MergedTeam(men[0]) == Some("A");
    var menRanks, womenRanks := [2], [4];
    var sc := seq(|pairs|, i requires 0 <= i < |pairs| => Scored(MergedTeam(pairs[i].0), menRanks[i], womenRanks[i]));
    assert |sc| == 1 && sc[0] == x;
    assert sc == [x];
    assert ScoredSchools(men, women) == Success([x]);
    var le := ByKey(ScoreKey, IntOrder());
    assert [x][1..] == [];
    assert SortBy([x], le) == Insert(x, [], le) == [x];
    var out := OverallRanks([x]);
    assert |out| == 1 && out[0] == RankedSchool(x, 1);
    assert out == [RankedSchool(x, 1)];
  }

  // ----- The school snapshots and the whole refresh -----

  /** The school stored under the team's name, when there is one. */
  predicate Known(schools: seq<School>, team: Option<string>)
  {
    team.Some? && team.value in NamesOf(schools)
  }

  /**
   * The school snapshots of a ranking, added to one session and committed
   * together: a ranked team without a stored school fails the commit.
   */
  function SchoolSnapshotsOf(schools: seq<School>, ranking: seq<RankedSchool>, date: Date): Result<seq<SchoolSnapshot>, SnapshotError>
    decreases |ranking|
  {
    if ranking == [] then Success([])
    else match SchoolSnapshotsOf(schools, ranking[..|ranking| - 1], date)
      case Failure(e) => Failure(e)
      case Success(prev) =>
        var r := ranking[|ranking| - 1];
        match FindSchool(schools, r.school.team)
        case None => Failure(UnknownSchool(r.school.team))
        case Some(school) => Success(prev + [SchoolSnapshot(school.name, date, r.rank)])
  }

  /**
   * The commit succeeds exactly when every ranked team is a stored school,
   * and then stores one snapshot per ranked school, in rank order, with its
   * name and overall rank.
   */
  lemma {:induction false} SchoolSnapshotsSpec(schools: seq<School>, ranking: seq<RankedSchool>, date: Date)
    ensures SchoolSnapshotsOf(schools, ranking, date).Success? <==>
      forall i :: 0 <= i < |ranking| ==> Known(schools, ranking[i].school.team)
    ensures SchoolSnapshotsOf(schools, ranking, date).Success? ==>
      && |SchoolSnapshotsOf(schools, ranking, date).value| == |ranking|
      && forall i :: 0 <= i < |ranking| ==>
        SchoolSnapshotsOf(schools, ranking, date).value[i] == SchoolSnapshot(ranking[i].school.team.value, date, ranking[i].rank)
    decreases |ranking|
  {
    if ranking != [] {
      var n := |ranking| - 1;
      var init := ranking[..n];
      SchoolSnapshotsSpec(schools, init, date);
      assert forall i :: 0 <= i < n ==> init[i] == ranking[i];
    }
  }

  /** Both categories have a row for the team `name`. */
  predicate InBoth(men: seq<TeamRow>, women: seq<TeamRow>, name: string)
  {
    exists m, w :: m in men && w in women && MergedTeam(m) == Some(name) && MergedTeam(w) == Some(name)
  }

  /** Once a school is missing, the rest of the ranking changes nothing: the commit fails. */
  lemma {:induction false} SchoolSnapshotsPersist(schools: seq<School>, ranking: seq<RankedSchool>, n: nat, date: Date)
    requires n <= |ranking|
    requires n == |ranking| || SchoolSnapshotsOf(schools, ranking[..n], date).Failure?
    ensures SchoolSnapshotsOf(schools, ranking, date) == SchoolSnapshotsOf(schools, ranking[..n], date)
    decreases |ranking|
  {
    if n < |ranking| {
      var init := ranking[..|ranking| - 1];
      assert init[..n] == ranking[..n];
      SchoolSnapshotsPersist(schools, init, n, date);
    } else {
      assert ranking[..n] == ranking;
    }
  }

  /** `get_school_snapshots` on the two merged tables: the ranking, then its commit. */
  function SchoolStage(schools: seq<School>, men: seq<TeamRow>, women: seq<TeamRow>, date: Date): Result<seq<SchoolSnapshot>, SnapshotError>
  {
    match SchoolRanking(men, women)
    case Failure(e) => Failure(e)
    case Success(ranking) => SchoolSnapshotsOf(schools, ranking, date)
  }

  /**
   * A successful school stage stores one snapshot per joined pair of the
   * two categories, dated `date` and ranked 1..N by position.
   */
  lemma SchoolStageSpec(schools: seq<School>, men: seq<TeamRow>, women: seq<TeamRow>, date: Date)
    requires SchoolStage(schools, men, women, date).Success?
    ensures var snaps := SchoolStage(schools, men, women, date).value;
      && |snaps| == |JoinedPairs(men, women)|
      && forall i :: 0 <= i < |snaps| ==> snaps[i].rank == i + 1 && snaps[i].date == date
  {
    var scored := ScoredSchools(men, women).value;
    var ranking := OverallRanks(scored);
    assert |scored| == |JoinedPairs(men, women)| by {
      ScoredSchoolsValues(men, women);
    }
    OverallRanksSpec(scored);
    SchoolSnapshotsSpec(schools, ranking, date);
  }

  /**
   * Every school snapshot of a successful school stage is for a stored
   * school whose team has a row in both categories.
   */
  lemma SchoolStageFromBoth(schools: seq<School>, men: seq<TeamRow>, women: seq<TeamRow>, date: Date)
    requires SchoolStage(schools, men, women, date).Success?
    ensures var snaps := SchoolStage(schools, men, women, date).value;
      forall i :: 0 <= i < |snaps| ==> snaps[i].school in NamesOf(schools) && InBoth(men, women, snaps[i].school)
  {
    var scored := ScoredSchools(men, women).value;
    var ranking := OverallRanks(scored);
    var snaps := SchoolStage(schools, men, women, date).value;
    assert SchoolSnapshotsOf(schools, ranking, date) == Success(snaps);
    SchoolSnapshotsSpec(schools, ranking, date);
    assert multiset(SchoolsOf(ranking)) == multiset(scored) by {
      OverallRanksSpec(scored);
    }
    forall i | 0 <= i < |snaps|
      ensures snaps[i].school in NamesOf(schools) && InBoth(men, women, snaps[i].school)
    {
      var s := ranking[i].school;
      assert Known(schools, s.team);
      assert snaps[i].school == s.team.value;
      assert SchoolsOf(ranking)[i] == s;
      assert s in scored by {
        assert s in multiset(SchoolsOf(ranking));
      }
      ScoredInBoth(men, women, s);
    }
  }

  /** A scored school is a team of both categories. */
  lemma ScoredInBoth(men: seq<TeamRow>, women: seq<TeamRow>, s: Scored)
    requires ScoredSchools(men, women).Success? && s in ScoredSchools(men, women).value
    ensures s.team.Some? ==> InBoth(men, women, s.team.value)
  {
    ScoredSchoolsFromBoth(men, women);
    var m, w :| m in men && w in women && RanksOf(s, m, w);
  }

  /** The three extractor tables of one category. */
  datatype Extracts = Extracts(rpi: Table, offense: Table, defense: Table)

  /** The merged table `get_team_snapshots` builds for one category. */
  function MergedRows(x: Extracts): seq<TeamRow>
  {
    TeamRows(x.rpi, OffenseRanking(x.offense), DefenseRanking(x.defense))
  }

  /** What one refresh stores, and the exception that ended it early, if any. */
  datatype Refreshed = Refreshed(teams: seq<TeamSnapshot>, schools: seq<SchoolSnapshot>, failure: Option<SnapshotError>)

  /** `get_snapshots`: the men's team run, the women's team run, then the school stage; the first exception ends it. */
  function Refresh(schools: seq<School>, men: Extracts, women: Extracts, date: Date): Refreshed
  {
    RefreshFrom(schools, MergedRows(men), MergedRows(women), date)
  }

  /** A refresh over the two merged tables. */
  function RefreshFrom(schools: seq<School>, menRows: seq<TeamRow>, womenRows: seq<TeamRow>, date: Date): Refreshed
  {
    var menRun := TeamSnapshots(schools, Men, date, menRows);
    if menRun.failure.Some? then Refreshed(menRun.done, [], menRun.failure)
    else
      var rest := AfterMen(schools, menRows, womenRows, date);
      Refreshed(menRun.done + rest.teams, rest.schools, rest.failure)
  }

  /** The rest of a refresh once the men's run has completed. */
  function AfterMen(schools: seq<School>, menRows: seq<TeamRow>, womenRows: seq<TeamRow>, date: Date): Refreshed
  {
    var womenRun := TeamSnapshots(schools, Women, date, womenRows);
    if womenRun.failure.Some? then Refreshed(womenRun.done, [], womenRun.failure)
    else match SchoolStage(schools, menRows, womenRows, date)
      case Failure(e) => Refreshed(womenRun.done, [], Some(e))
      case Success(snaps) => Refreshed(womenRun.done, snaps, None)
  }

  /** `done` holds one snapshot per row of `rpi`, in order, for that row's team and for category `teamType`. */
  predicate RunMatches(done: seq<TeamSnapshot>, rpi: Table, teamType: TeamType)
  {
    && |done| == |rpi|
    && forall i :: 0 <= i < |rpi| ==> done[i].teamType == teamType && Some(done[i].school) == TeamOf(rpi[i])
  }

  /** Each offense and defense table of the category names a team once. */
  predicate OneRowPerTeam(x: Extracts)
  {
    UniqueKeys(OffenseRanking(x.offense), RankedTeam) && UniqueKeys(DefenseRanking(x.defense), RankedTeam)
  }

  /**
   * A team run that completes stores one snapshot per RPI row, in order,
   * for that row's team and category, when each offense and defense table
   * names a team once.
   */
  lemma CompletedRun(schools: seq<School>, teamType: TeamType, date: Date, x: Extracts)
    requires OneRowPerTeam(x)
    requires TeamSnapshots(schools, teamType, date, MergedRows(x)).failure.None?
    ensures RunMatches(TeamSnapshots(schools, teamType, date, MergedRows(x)).done, x.rpi, teamType)
  {
    var rows := MergedRows(x);
    TeamRowsUnique(x.rpi, OffenseRanking(x.offense), DefenseRanking(x.defense));
    var outcomes := Outcomes(schools, teamType, date, rows);
    CommittedComplete(outcomes);
    forall i | 0 <= i < |x.rpi|
      ensures Committed(outcomes).done[i].teamType == teamType && Some(Committed(outcomes).done[i].school) == TeamOf(x.rpi[i])
    {
      assert outcomes[i] == SnapshotOf(schools, teamType, date, rows[i]);
      assert rows[i].rpi == x.rpi[i];
    }
  }

  /**
   * A refresh completes exactly when both team runs and the school stage
   * do; it then stores the men's team snapshots, then the women's, and the
   * school snapshots. School snapshots are stored only by a refresh that
   * completes.
   */
  lemma RefreshStages(schools: seq<School>, men: Extracts, women: Extracts, date: Date)
    ensures var r := Refresh(schools, men, women, date);
      var menRun := TeamSnapshots(schools, Men, date, MergedRows(men));
      var womenRun := TeamSnapshots(schools, Women, date, MergedRows(women));
      r.failure.None? <==>
        menRun.failure.None? && womenRun.failure.None? &&
        SchoolStage(schools, MergedRows(men), MergedRows(women), date).Success?
    ensures var r := Refresh(schools, men, women, date);
      var menRun := TeamSnapshots(schools, Men, date, MergedRows(men));
      var womenRun := TeamSnapshots(schools, Women, date, MergedRows(women));
      r.failure.None? ==>
        r.teams == menRun.done + womenRun.done &&
        r.schools == SchoolStage(schools, MergedRows(men), MergedRows(women), date).value
    ensures var r := Refresh(schools, men, women, date);
      r.schools != [] ==> r.failure.None?
  {
  }

  /**
   * A refresh that completes stores one team snapshot per RPI row of each
   * category, the men's first, when each offense and defense table names
   * a team once.
   */
  lemma RefreshComplete(schools: seq<School>, men: Extracts, women: Extracts, date: Date)
    requires OneRowPerTeam(men) && OneRowPerTeam(women)
    requires Refresh(schools, men, women, date).failure.None?
    ensures var teams := Refresh(schools, men, women, date).teams;
      && |teams| == |men.rpi| + |women.rpi|
      && RunMatches(teams[..|men.rpi|], men.rpi, Men)
      && RunMatches(teams[|men.rpi|..], women.rpi, Women)
  {
    var teams := Refresh(schools, men, women, date).teams;
    var md := TeamSnapshots(schools, Men, date, MergedRows(men)).done;
    var wd := TeamSnapshots(schools, Women, date, MergedRows(women)).done;
    RefreshStages(schools, men, women, date);
    CompletedRun(schools, Men, date, men);
    CompletedRun(schools, Women, date, women);
    assert teams == md + wd;
    assert teams[..|md|] == md && teams[|md|..] == wd;
  }
}
