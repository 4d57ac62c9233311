/**
 * The database the pipeline writes, and the three operations that write
 * it: the bootstrap `load_schools`, the per-category `get_team_snapshots`
 * and `get_school_snapshots`, and the refresh `get_snapshots` that runs
 * them in turn. A school is stored with its teams; a team is identified by
 * its school's name and its category.
 */
module Store {
  import opened Wrappers
  import opened Tables
  import opened Schema
  import opened Bootstrap
  import opened Snapshots

  class Database {
    var schools: seq<School>
    var teamSnapshots: seq<TeamSnapshot>
    var schoolSnapshots: seq<SchoolSnapshot>

    /** The unique constraint on school names holds. */
    ghost predicate Valid()
      reads this
    {
      UniqueNames(schools)
    }

    constructor ()
      ensures Valid()
      ensures schools == [] && teamSnapshots == [] && schoolSnapshots == []
    {
      schools := [];
      teamSnapshots := [];
      schoolSnapshots := [];
    }

    /**
     * One `add` and `commit` of a school with its teams: committed when the
     * name and conference are present and the name is new, rolled back
     * otherwise.
     */
    method AddSchool(c: Candidate) returns (added: bool)
      requires Valid()
      modifies this
      ensures Valid()
      ensures added == Admissible(old(schools), c)
      ensures schools == Admit(old(schools), c)
      ensures teamSnapshots == old(teamSnapshots) && schoolSnapshots == old(schoolSnapshots)
    {
      added := c.name.Some? && c.conference.Some? && FindSchool(schools, c.name).None?;
      if added {
        AdmitStep(schools, c);
        schools := schools + [SchoolOf(c)];
      }
    }

    /**
     * `load_schools`: every row of the outer join of the two RPI tables,
     * in team order, classified and inserted on its own.
     */
    method LoadSchools(men: Table, women: Table)
      requires Valid()
      modifies this
      ensures Valid()
      ensures schools == Bootstrapped(old(schools), men, women)
      ensures teamSnapshots == old(teamSnapshots) && schoolSnapshots == old(schoolSnapshots)
    {
      var rows := JoinedRows(men, women);
      AddSchools(rows);
    }

    /** The loop of `load_schools`: each joined row classified, then added and committed or rolled back. */
    method AddSchools(rows: seq<Joined>)
      requires Valid()
      modifies this
      ensures Valid()
      ensures schools == AdmitAll(old(schools), ClassifyAll(rows))
      ensures teamSnapshots == old(teamSnapshots) && schoolSnapshots == old(schoolSnapshots)
    {
      ghost var cs := ClassifyAll(rows);
      var i := 0;
      assert cs[..0] == [];
      while i < |rows|
        invariant 0 <= i <= |rows|
        invariant Valid()
        invariant schools == AdmitAll(old(schools), cs[..i])
        invariant teamSnapshots == old(teamSnapshots) && schoolSnapshots == old(schoolSnapshots)
      {
        var c := Classify(rows[i]);
        var added := AddSchool(c);
        AdmitAllPrefix(old(schools), cs, i);
        i := i + 1;
      }
      assert cs[..|rows|] == cs;
    }

    /**
     * `get_team_snapshots` for one category: the merged table, then one
     * snapshot committed per row until a row raises.
     */
    method SaveTeamSnapshots(teamType: TeamType, x: Extracts, date: Date) returns (merged: seq<TeamRow>, failure: Option<SnapshotError>)
      requires Valid()
      modifies this
      ensures Valid()
      ensures merged == MergedRows(x)
      ensures teamSnapshots == old(teamSnapshots) + TeamSnapshots(schools, teamType, date, merged).done
      ensures failure == TeamSnapshots(schools, teamType, date, merged).failure
      ensures schools == old(schools) && schoolSnapshots == old(schoolSnapshots)
    {
      merged := MergedRows(x);
      failure := CommitTeamSnapshots(teamType, merged, date);
    }

    /** The loop of `get_team_snapshots`: each row's snapshot committed on its own, until a row raises. */
    method CommitTeamSnapshots(teamType: TeamType, rows: seq<TeamRow>, date: Date) returns (failure: Option<SnapshotError>)
      requires Valid()
      modifies this
      ensures Valid()
      ensures teamSnapshots == old(teamSnapshots) + TeamSnapshots(schools, teamType, date, rows).done
      ensures failure == TeamSnapshots(schools, teamType, date, rows).failure
      ensures schools == old(schools) && schoolSnapshots == old(schoolSnapshots)
    {
      ghost var outcomes := Outcomes(schools, teamType, date, rows);
      failure := None;
      var i := 0;
      assert outcomes[..0] == [];
      while i < |rows| && failure.None?
        invariant 0 <= i <= |rows|
        invariant teamSnapshots == old(teamSnapshots) + Committed(outcomes[..i]).done
        invariant failure == Committed(outcomes[..i]).failure
        invariant schools == old(schools) && schoolSnapshots == old(schoolSnapshots)
      {
        var outcome := SnapshotOf(schools, teamType, date, rows[i]);
        assert outcome == outcomes[i];
        CommittedStep(outcomes, i);
        match outcome {
          case Failure(e) =>
            failure := Some(e);
          case Success(s) =>
            teamSnapshots := teamSnapshots + [s];
        }
        i := i + 1;
      }
      CommittedPersists(outcomes, i);
    }

    /**
     * `get_school_snapshots`: the ranking, then every snapshot added to one
     * session and committed together; an exception stores none of them.
     */
    method SaveSchoolSnapshots(men: seq<TeamRow>, women: seq<TeamRow>, date: Date) returns (failure: Option<SnapshotError>)
      requires Valid()
      modifies this
      ensures Valid()
      ensures SchoolStage(schools, men, women, date).Success? ==>
        failure.None? && schoolSnapshots == old(schoolSnapshots) + SchoolStage(schools, men, women, date).value
      ensures SchoolStage(schools, men, women, date).Failure? ==>
        failure == Some(SchoolStage(schools, men, women, date).error) && schoolSnapshots == old(schoolSnapshots)
      ensures schools == old(schools) && teamSnapshots == old(teamSnapshots)
    {
      var ranked := SchoolRanking(men, women);
      if ranked.Failure? {
        return Some(ranked.error);
      }
      var pending;
      pending, failure := CollectSchoolSnapshots(ranked.value, date);
      if failure.None? {
        schoolSnapshots := schoolSnapshots + pending;
      }
    }

    /** The loop of `get_school_snapshots`: one snapshot per ranked school, each school looked up by name. */
    method CollectSchoolSnapshots(ranking: seq<RankedSchool>, date: Date) returns (pending: seq<SchoolSnapshot>, failure: Option<SnapshotError>)
      ensures failure.None? <==> SchoolSnapshotsOf(schools, ranking, date).Success?
      ensures failure.None? ==> SchoolSnapshotsOf(schools, ranking, date) == Success(pending)
      ensures failure.Some? ==> SchoolSnapshotsOf(schools, ranking, date) == Failure(failure.value)
    {
      pending := [];
      failure := None;
      var i := 0;
      assert ranking[..0] == [];
      while i < |ranking| && failure.None?
        invariant 0 <= i <= |ranking|
        invariant failure.None? ==> SchoolSnapshotsOf(schools, ranking[..i], date) == Success(pending)
        invariant failure.Some? ==> SchoolSnapshotsOf(schools, ranking[..i], date) == Failure(failure.value)
      {
        assert ranking[..i + 1][..i] == ranking[..i];
        var r := ranking[i];
        match FindSchool(schools, r.school.team) {
          case None =>
            failure := Some(UnknownSchool(r.school.team));
          case Some(school) =>
            pending := pending + [SchoolSnapshot(school.name, date, r.rank)];
        }
        i := i + 1;
      }
      SchoolSnapshotsPersist(schools, ranking, i, date);
    }

    /** `get_snapshots`: the men's team snapshots, the women's, then the school snapshots. */
    method GetSnapshots(men: Extracts, women: Extracts, date: Date) returns (failure: Option<SnapshotError>)
      requires Valid()
      modifies this
      ensures Valid()
      ensures schools == old(schools)
      ensures teamSnapshots == old(teamSnapshots) + Refresh(schools, men, women, date).teams
      ensures schoolSnapshots == old(schoolSnapshots) + Refresh(schools, men, women, date).schools
      ensures failure == Refresh(schools, men, women, date).failure
    {
      var menRows := MergedRows(men);
      var womenRows := MergedRows(women);
      failure := RefreshWith(menRows, womenRows, date);
    }

    /** The refresh over the two merged tables. */
    method RefreshWith(menRows: seq<TeamRow>, womenRows: seq<TeamRow>, date: Date) returns (failure: Option<SnapshotError>)
      requires Valid()
      modifies this
      ensures Valid()
      ensures schools == old(schools)
      ensures teamSnapshots == old(teamSnapshots) + RefreshFrom(schools, menRows, womenRows, date).teams
      ensures schoolSnapshots == old(schoolSnapshots) + RefreshFrom(schools, menRows, womenRows, date).schools
      ensures failure == RefreshFrom(schools, menRows, womenRows, date).failure
    {
      ghost var before := teamSnapshots;
      ghost var menRun := TeamSnapshots(schools, Men, date, menRows);
      var menFailure := CommitTeamSnapshots(Men, menRows, date);
      if menFailure.Some? {
        return menFailure;
      }
      failure := FinishRefresh(menRows, womenRows, date);
      ghost var rest := AfterMen(schools, menRows, womenRows, date);
      assert RefreshFrom(schools, menRows, womenRows, date) == Refreshed(menRun.done + rest.teams, rest.schools, rest.failure);
      AppendAssociative(before, menRun.done, rest.teams);
    }

    /** The women's team snapshots, then the school snapshots, once the men's run has completed. */
    method FinishRefresh(menRows: seq<TeamRow>, womenRows: seq<TeamRow>, date: Date) returns (failure: Option<SnapshotError>)
      requires Valid()
      modifies this
      ensures Valid()
      ensures schools == old(schools)
      ensures teamSnapshots == old(teamSnapshots) + AfterMen(schools, menRows, womenRows, date).teams
      ensures schoolSnapshots == old(schoolSnapshots) + AfterMen(schools, menRows, womenRows, date).schools
      ensures failure == AfterMen(schools, menRows, womenRows, date).failure
    {
      var womenFailure := CommitTeamSnapshots(Women, womenRows, date);
      if womenFailure.Some? {
        return womenFailure;
      }
      failure := SaveSchoolSnapshots(menRows, womenRows, date);
    }
  }

  lemma AppendAssociative<T>(a: seq<T>, b: seq<T>, c: seq<T>)
    ensures (a + b) + c == a + (b + c)
  {
  }
}
