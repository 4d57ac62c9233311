/**
 * The stored entities. A School has a unique name and a conference and
 * fields one or two Teams, one per category; snapshots are dated records
 * appended on every refresh. Teams are identified here by their school's
 * name and their category, which is how the refresh looks them up.
 */
module Schema {
  import opened Wrappers

  datatype TeamType = Men | Women

  /** The day a snapshot is taken; the refresh is given it rather than reading the clock. */
  datatype Date = Date(year: int, month: int, day: int)

  datatype School = School(name: string, conference: string, teams: seq<TeamType>)

  datatype TeamSnapshot = TeamSnapshot(
    school: string, teamType: TeamType, date: Date,
    rank: string, wins: string, losses: string,
    offRank: Option<nat>, defRank: Option<nat>, ppg: Option<string>, oppg: Option<string>)

  datatype SchoolSnapshot = SchoolSnapshot(school: string, date: Date, rank: nat)

  function NamesOf(schools: seq<School>): set<string>
  {
    set s | s in schools :: s.name
  }

  /** The unique constraint on a school's name. */
  predicate UniqueNames(schools: seq<School>)
  {
    forall i, j :: 0 <= i < |schools| && 0 <= j < |schools| && schools[i].name == schools[j].name ==> i == j
  }

  /** `School.query.filter_by(name=...).first()`: the first school of that name, or None. */
  function FindSchool(schools: seq<School>, name: Option<string>): (r: Option<School>)
    ensures r.Some? ==> r.value in schools && Some(r.value.name) == name
    ensures r.None? <==> name.None? || name.value !in NamesOf(schools)
  {
    if name.None? || schools == [] then None
    else if schools[0].name == name.value then Some(schools[0])
    else
      assert NamesOf(schools) == {schools[0].name} + NamesOf(schools[1..]) by {
        assert forall s :: s in schools <==> s == schools[0] || s in schools[1..];
      }
      FindSchool(schools[1..], name)
  }
}
