/**
 * The classification and duplicate skip of `load_schools`. The men's and
 * women's RPI tables are outer-joined on the team name and sorted by it;
 * each joined row proposes a School, and the database keeps it unless the
 * insert violates a constraint (the name is taken, or the name or the
 * conference is missing, which SQLite stores as NULL), in which case it is
 * rolled back and skipped.
 */
module Bootstrap {
  import opened Wrappers
  import opened Tables
  import opened Text
  import opened Sorting
  import opened Joins
  import opened Schema

  const ConferenceColumn: string := "Conference"

  /** A row of the outer join: the men's row and the women's row of one team name, either possibly missing. */
  type Joined = (Option<Record>, Option<Record>)

  /** `Conference_M` / `Conference_W`: null where that side is missing or has no conference. */
  function ConferenceOf(side: Option<Record>): Option<string>
  {
    if side.Some? then Field(side.value, ConferenceColumn) else None
  }

  /** The team name of a joined row, taken from whichever side is present. */
  function JoinedTeam(j: Joined): Option<string>
  {
    if j.0.Some? then TeamOf(j.0.value) else if j.1.Some? then TeamOf(j.1.value) else None
  }

  /** The School a joined row proposes, before the database has had its say. */
  datatype Candidate = Candidate(name: Option<string>, conference: Option<string>, teams: seq<TeamType>)

  /**
   * The three cases of `load_schools`: a women's team exactly when the
   * women's side has a conference; a men's team when the men's side has one
   * or the women's has none; the conference of the men's side whenever a
   * men's team is fielded, otherwise that of the women's side.
   */
  function Classify(j: Joined): (c: Candidate)
    ensures c.name == JoinedTeam(j)
    ensures c.teams == [Men] || c.teams == [Women] || c.teams == [Men, Women]
    ensures Women in c.teams <==> ConferenceOf(j.1).Some?
    ensures Men in c.teams <==> ConferenceOf(j.0).Some? || ConferenceOf(j.1).None?
    ensures Men in c.teams ==> c.conference == ConferenceOf(j.0)
    ensures Men !in c.teams ==> c.conference == ConferenceOf(j.1)
  {
    if ConferenceOf(j.1).None? then Candidate(JoinedTeam(j), ConferenceOf(j.0), [Men])
    else if ConferenceOf(j.0).None? then Candidate(JoinedTeam(j), ConferenceOf(j.1), [Women])
    else Candidate(JoinedTeam(j), ConferenceOf(j.0), [Men, Women])
  }

  /** The joined rows in the order `load_schools` visits them: sorted by team name. */
  function JoinedRows(men: Table, women: Table): seq<Joined>
  {
    SortBy(OuterJoin(men, women, TeamOf, TeamOf), ByKey(JoinedTeam, TextOrder()))
  }

  /** The School each joined row proposes, in order. */
  function ClassifyAll(rows: seq<Joined>): (cs: seq<Candidate>)
    ensures |cs| == |rows|
    ensures forall i :: 0 <= i < |rows| ==> cs[i] == Classify(rows[i])
  {
    seq(|rows|, i requires 0 <= i < |rows| => Classify(rows[i]))
  }

  function Candidates(men: Table, women: Table): (cs: seq<Candidate>)
    ensures |cs| == |JoinedRows(men, women)|
    ensures forall i :: 0 <= i < |cs| ==> cs[i] == Classify(JoinedRows(men, women)[i])
  {
    ClassifyAll(JoinedRows(men, women))
  }

  /** The insert succeeds: name and conference are present (NOT NULL, with NaN read as NULL, as SQLite does) and the name is new (UNIQUE). */
  predicate Admissible(schools: seq<School>, c: Candidate)
  {
    c.name.Some? && c.conference.Some? && c.name.value !in NamesOf(schools)
  }

  function SchoolOf(c: Candidate): School
    requires c.name.Some? && c.conference.Some?
  {
    School(c.name.value, c.conference.value, c.teams)
  }

  /** One insert, committed or rolled back. */
  function Admit(schools: seq<School>, c: Candidate): seq<School>
  {
    if Admissible(schools, c) then schools + [SchoolOf(c)] else schools
  }

  /** The inserts of a bootstrap, one after another. */
  function AdmitAll(schools: seq<School>, cs: seq<Candidate>): seq<School>
    decreases |cs|
  {
    if cs == [] then schools else Admit(AdmitAll(schools, cs[..|cs| - 1]), cs[|cs| - 1])
  }

  /** The names of the candidates an insert accepts when their name is new. */
  function ValidNames(cs: seq<Candidate>): set<string>
  {
    set c | c in cs && c.name.Some? && c.conference.Some? :: c.name.value
  }

  lemma NamesOfAppend(schools: seq<School>, s: School)
    ensures NamesOf(schools + [s]) == NamesOf(schools) + {s.name}
  {
    assert forall x :: x in schools + [s] <==> x in schools || x == s;
  }

  /** One insert only adds: it keeps the stored schools and their unique names, and adds the candidate's name when admitted. */
  lemma AdmitStep(before: seq<School>, c: Candidate)
    requires UniqueNames(before)
    ensures |before| <= |Admit(before, c)| && Admit(before, c)[..|before|] == before
    ensures UniqueNames(Admit(before, c))
    ensures NamesOf(Admit(before, c)) == NamesOf(before) + (if c.name.Some? && c.conference.Some? then {c.name.value} else {})
  {
    if Admissible(before, c) {
      NamesOfAppend(before, SchoolOf(c));
      var after := before + [SchoolOf(c)];
      assert after[..|before|] == before;
      forall k | 0 <= k < |before| ensures after[k].name != SchoolOf(c).name {
        assert after[k] in before;
      }
    }
  }

  /**
   * Bootstrap only adds: the stored schools are kept as they were, their
   * names stay unique, and the names afterwards are the old ones plus every
   * candidate name that had a conference.
   */
  lemma {:induction false} AdmitAllSpec(schools: seq<School>, cs: seq<Candidate>)
    requires UniqueNames(schools)
    ensures |schools| <= |AdmitAll(schools, cs)| && AdmitAll(schools, cs)[..|schools|] == schools
    ensures UniqueNames(AdmitAll(schools, cs))
    ensures NamesOf(AdmitAll(schools, cs)) == NamesOf(schools) + ValidNames(cs)
    decreases |cs|
  {
    if cs != [] {
      var init := cs[..|cs| - 1];
      var c := cs[|cs| - 1];
      AdmitAllSpec(schools, init);
      var before := AdmitAll(schools, init);
      AdmitStep(before, c);
      var after := Admit(before, c);
      assert after[..|schools|] == before[..|schools|] by {
        assert after[..|before|][..|schools|] == after[..|schools|];
      }
      assert cs == init + [c];
      ValidNamesAppend(init, c);
    }
  }

  lemma ValidNamesAppend(init: seq<Candidate>, c: Candidate)
    ensures ValidNames(init + [c]) == ValidNames(init) + (if c.name.Some? && c.conference.Some? then {c.name.value} else {})
  {
    assert forall d :: d in init + [c] <==> d in init || d == c;
  }

  /** The inserts of the first i + 1 candidates: those of the first i, then the next one. */
  lemma AdmitAllPrefix(schools: seq<School>, cs: seq<Candidate>, i: nat)
    requires i < |cs|
    ensures AdmitAll(schools, cs[..i + 1]) == Admit(AdmitAll(schools, cs[..i]), cs[i])
  {
    assert cs[..i + 1][..i] == cs[..i];
  }

  /** A second bootstrap with the same rows changes nothing: every name it proposes is already taken. */
  lemma {:induction false} AdmitAllIdempotent(schools: seq<School>, cs: seq<Candidate>)
    requires UniqueNames(schools)
    ensures AdmitAll(AdmitAll(schools, cs), cs) == AdmitAll(schools, cs)
  {
    AdmitAllSpec(schools, cs);
    AdmitAllRejected(AdmitAll(schools, cs), cs);
  }

  /** When every candidate with a conference names a stored school, all inserts are rolled back. */
  lemma {:induction false} AdmitAllRejected(schools: seq<School>, cs: seq<Candidate>)
    requires ValidNames(cs) <= NamesOf(schools)
    ensures AdmitAll(schools, cs) == schools
    decreases |cs|
  {
    if cs != [] {
      var init := cs[..|cs| - 1];
      var c := cs[|cs| - 1];
      assert ValidNames(init) <= ValidNames(cs);
      AdmitAllRejected(schools, init);
      if c.name.Some? && c.conference.Some? {
        assert c.name.value in ValidNames(cs);
      }
    }
  }

  /**
   * A candidate that has a name and a conference, whose name is new and is
   * proposed by no different candidate, ends up stored.
   */
  lemma {:induction false} AdmittedWhenAlone(schools: seq<School>, cs: seq<Candidate>, c: Candidate)
    requires c in cs && c.name.Some? && c.conference.Some? && c.name.value !in NamesOf(schools)
    requires forall d :: d in cs && d.name == c.name ==> d == c
    ensures SchoolOf(c) in AdmitAll(schools, cs)
    decreases |cs|
  {
    var init := cs[..|cs| - 1];
    var last := cs[|cs| - 1];
    assert cs == init + [last];
    var before := AdmitAll(schools, init);
    if c == last {
      if c.name.value in NamesOf(before) {
        // the name was taken by an earlier candidate, which must then be c itself
        AdmittedNameHasCandidate(schools, init, c.name.value);
        var d :| d in init && d.name == c.name && d.conference.Some?;
        assert d == c;
        AdmittedWhenAlone(schools, init, c);
      } else {
        assert SchoolOf(c) in before + [SchoolOf(c)];
      }
    } else {
      AdmittedWhenAlone(schools, init, c);
      AdmitKeeps(before, last);
    }
  }

  lemma AdmitKeeps(schools: seq<School>, c: Candidate)
    ensures forall s :: s in schools ==> s in Admit(schools, c)
  {
  }

  lemma {:induction false} AdmittedNameHasCandidate(schools: seq<School>, cs: seq<Candidate>, name: string)
    requires name in NamesOf(AdmitAll(schools, cs)) && name !in NamesOf(schools)
    ensures exists d :: d in cs && d.name == Some(name) && d.conference.Some?
    decreases |cs|
  {
    var init := cs[..|cs| - 1];
    var last := cs[|cs| - 1];
    assert cs == init + [last];
    var before := AdmitAll(schools, init);
    if name in NamesOf(before) {
      AdmittedNameHasCandidate(schools, init, name);
      var d :| d in init && d.name == Some(name) && d.conference.Some?;
      assert d in cs;
    } else {
      if Admissible(before, last) {
        NamesOfAppend(before, SchoolOf(last));
      }
      assert last in cs;
    }
  }

  /** The schools after a bootstrap of the two RPI tables onto the stored ones. */
  function Bootstrapped(schools: seq<School>, men: Table, women: Table): seq<School>
  {
    AdmitAll(schools, Candidates(men, women))
  }

  /** Each joined row that carries `name` is `j`. */
  predicate OnlyRowFor(rows: seq<Joined>, name: Option<string>, j: Joined)
  {
    forall p :: p in rows && JoinedTeam(p) == name ==> p == j
  }

  lemma {:induction false} AloneInJoin(men: Table, women: Table, j: Joined)
    requires j in OuterJoin(men, women, TeamOf, TeamOf)
    requires OnlyRowFor(OuterJoin(men, women, TeamOf, TeamOf), JoinedTeam(j), j)
    requires Classify(j).name.Some? && Classify(j).conference.Some?
    ensures forall d :: d in Candidates(men, women) && d.name == Classify(j).name ==> d == Classify(j)
    ensures Classify(j) in Candidates(men, women)
  {
    var joined := OuterJoin(men, women, TeamOf, TeamOf);
    var rows := JoinedRows(men, women);
    var cs := Candidates(men, women);
    assert multiset(rows) == multiset(joined);
    forall d | d in cs && d.name == Classify(j).name ensures d == Classify(j) {
      var i :| 0 <= i < |cs| && cs[i] == d;
      assert rows[i] in multiset(joined);
    }
    assert j in multiset(rows);
    var i :| 0 <= i < |rows| && rows[i] == j;
    assert cs[i] == Classify(j);
  }

  /**
   * A team listed once, with a conference, in the men's table and absent
   * from the women's becomes a School with the men's conference and one
   * Men team, provided its name is not stored yet.
   */
  lemma MenOnlySchool(schools: seq<School>, men: Table, women: Table, m: Record)
    requires m in men && TeamOf(m).Some? && ConferenceColumn in m
    requires TeamOf(m).value !in NamesOf(schools)
    requires forall r :: r in men && TeamOf(r) == TeamOf(m) ==> r == m
    requires forall r :: r in women ==> TeamOf(r) != TeamOf(m)
    ensures School(TeamOf(m).value, m[ConferenceColumn], [Men]) in Bootstrapped(schools, men, women)
  {
    var joined := OuterJoin(men, women, TeamOf, TeamOf);
    var j: Joined := (Some(m), None);
    OuterJoinCoversLeft(men, women, TeamOf, TeamOf, m);
    var q :| q in joined && q.0 == Some(m);
    OuterJoinMembers(men, women, TeamOf, TeamOf, q);
    assert q == j;
    forall p | p in joined && JoinedTeam(p) == JoinedTeam(j) ensures p == j {
      OuterJoinMembers(men, women, TeamOf, TeamOf, p);
    }
    AloneInJoin(men, women, j);
    AdmittedWhenAlone(schools, Candidates(men, women), Classify(j));
  }

  /**
   * A team listed once, with a conference, in the women's table and absent
   * from the men's becomes a School with the women's conference and one
   * Women team, provided its name is not stored yet.
   */
  lemma WomenOnlySchool(schools: seq<School>, men: Table, women: Table, w: Record)
    requires w in women && TeamOf(w).Some? && ConferenceColumn in w
    requires TeamOf(w).value !in NamesOf(schools)
    requires forall r :: r in women && TeamOf(r) == TeamOf(w) ==> r == w
    requires forall r :: r in men ==> TeamOf(r) != TeamOf(w)
    ensures School(TeamOf(w).value, w[ConferenceColumn], [Women]) in Bootstrapped(schools, men, women)
  {
    var joined := OuterJoin(men, women, TeamOf, TeamOf);
    var j: Joined := (None, Some(w));
    OuterJoinCoversRight(men, women, TeamOf, TeamOf, w);
    var q :| q in joined && q.1 == Some(w);
    OuterJoinMembers(men, women, TeamOf, TeamOf, q);
    assert q == j;
    forall p | p in joined && JoinedTeam(p) == JoinedTeam(j) ensures p == j {
      OuterJoinMembers(men, women, TeamOf, TeamOf, p);
    }
    AloneInJoin(men, women, j);
    AdmittedWhenAlone(schools, Candidates(men, women), Classify(j));
  }

  /**
   * A team listed once in each table, both times with a conference, becomes
   * one School with the men's conference and the teams Men and Women,
   * provided its name is not stored yet.
   */
  lemma BothTeamsSchool(schools: seq<School>, men: Table, women: Table, m: Record, w: Record)
    requires m in men && w in women && TeamOf(m).Some? && TeamOf(w) == TeamOf(m)
    requires ConferenceColumn in m && ConferenceColumn in w
    requires TeamOf(m).value !in NamesOf(schools)
    requires forall r :: r in men && TeamOf(r) == TeamOf(m) ==> r == m
    requires forall r :: r in women && TeamOf(r) == TeamOf(w) ==> r == w
    ensures School(TeamOf(m).value, m[ConferenceColumn], [Men, Women]) in Bootstrapped(schools, men, women)
  {
    var joined := OuterJoin(men, women, TeamOf, TeamOf);
    var j: Joined := (Some(m), Some(w));
    OuterJoinHasPair(men, women, TeamOf, TeamOf, m, w);
    forall p | p in joined && JoinedTeam(p) == JoinedTeam(j) ensures p == j {
      OuterJoinMembers(men, women, TeamOf, TeamOf, p);
      assert p.0.Some? ==> p.0.value == m;
      assert p.1.Some? ==> p.1.value == w;
      assert p.0.Some? by {
        assert TeamOf(m) == JoinedTeam(j);
      }
      assert p.1.Some? by {
        assert TeamOf(w) == JoinedTeam(j);
      }
    }
    AloneInJoin(men, women, j);
    AdmittedWhenAlone(schools, Candidates(men, women), Classify(j));
  }
}
