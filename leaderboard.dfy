/** The admin's view of the competition: per-participant results ranked by
    points and solved questions, and the team list with calculated points. */
module Leaderboard {
  import opened Schema
  import opened Points

  /** SELECT id, username FROM users WHERE role = 'participant': every participant
      row exactly as often as the table holds it, and no other row. */
  function Participants(users: seq<User>): (ps: seq<User>)
    ensures forall u :: u in ps <==> u in users && u.role == Participant
    ensures forall u :: multiset(ps)[u] == if u.role == Participant then multiset(users)[u] else 0
    ensures |ps| <= |users|
  {
    if users == [] then []
    else
      var rest := Participants(users[1..]);
      assert users == [users[0]] + users[1..];
      assert forall u :: u in users <==> u == users[0] || u in users[1..];
      if users[0].role == Participant then [users[0]] + rest else rest
  }

  /** One row of getTeamResults. */
  datatype TeamResult = TeamResult(id: nat, username: string, questionsSolved: nat, totalPoints: int)

  /** The result row the per-participant query builds for u. */
  predicate Describes(e: TeamResult, u: User, tables: map<string, AnswerTable>, bank: seq<Question>)
  {
    && u.username in tables
    && e.id == u.id
    && e.username == u.username
    && e.questionsSolved == AcceptedCount(tables[u.username].rows)
    && e.totalPoints == AcceptedPoints(tables[u.username].rows, bank)
  }

  /** The per-participant queries run for every participant; the first one that
      fails (its table is missing) makes the whole request fail. */
  function ResultsFor(ps: seq<User>, tables: map<string, AnswerTable>, bank: seq<Question>): (r: Result<seq<TeamResult>>)
    ensures r.Ok? <==> forall u :: u in ps ==> u.username in tables
    ensures r.Ok? ==> |r.value| == |ps| && forall i :: 0 <= i < |ps| ==> Describes(r.value[i], ps[i], tables, bank)
  {
    if ps == [] then Ok([])
    else
      var u := ps[0];
      assert forall v :: v in ps <==> v == u || v in ps[1..];
      if u.username !in tables then Err(ServerError(MissingTable))
      else
        match ResultsFor(ps[1..], tables, bank)
        case Err(f) => Err(f)
        case Ok(rest) =>
          var rows := tables[u.username].rows;
          Ok([TeamResult(u.id, u.username, AcceptedCount(rows), AcceptedPoints(rows, bank))] + rest)
  }

  /** The sort's comparator: b.total_points - a.total_points when the totals differ,
      otherwise b.questions_solved - a.questions_solved. */
  function Compare(a: TeamResult, b: TeamResult): (c: int)
    ensures c < 0 <==> a.totalPoints > b.totalPoints || (a.totalPoints == b.totalPoints && a.questionsSolved > b.questionsSolved)
    ensures c == 0 <==> a.totalPoints == b.totalPoints && a.questionsSolved == b.questionsSolved
  {
    if b.totalPoints != a.totalPoints then b.totalPoints - a.totalPoints
    else b.questionsSolved - a.questionsSolved
  }

  /** The order the comparator sorts into: more points first, then more solved questions. */
  predicate RanksBefore(a: TeamResult, b: TeamResult): (before: bool)
    ensures before <==> Compare(a, b) <= 0
  {
    a.totalPoints > b.totalPoints || (a.totalPoints == b.totalPoints && a.questionsSolved >= b.questionsSolved)
  }

  predicate SortedByRank(s: seq<TeamResult>)
  {
    forall i, j :: 0 <= i < j < |s| ==> RanksBefore(s[i], s[j])
  }

  /** Inserts x before the first entry it does not rank behind. */
  function InsertByRank(x: TeamResult, s: seq<TeamResult>): (r: seq<TeamResult>)
    requires SortedByRank(s)
    ensures SortedByRank(r)
    ensures multiset(r) == multiset(s) + multiset{x}
  {
    if s == [] then [x]
    else if RanksBefore(x, s[0]) then [x] + s
    else
      var rest := InsertByRank(x, s[1..]);
      assert s == [s[0]] + s[1..];
      HeadRanksBeforeInsertion(x, s, rest);
      [s[0]] + rest
  }

  /** The head of a ranked list that x does not rank before also ranks before every
      entry of the tail with x inserted. */
  lemma HeadRanksBeforeInsertion(x: TeamResult, s: seq<TeamResult>, rest: seq<TeamResult>)
    requires s != [] && SortedByRank(s) && !RanksBefore(x, s[0])
    requires multiset(rest) == multiset(s[1..]) + multiset{x}
    ensures forall k :: 0 <= k < |rest| ==> RanksBefore(s[0], rest[k])
  {
    forall k | 0 <= k < |rest| ensures RanksBefore(s[0], rest[k]) {
      assert rest[k] in multiset(rest);
      if rest[k] != x {
        assert rest[k] in multiset(s[1..]);
        var m :| 0 <= m < |s[1..]| && s[1..][m] == rest[k];
        assert s[m + 1] == rest[k];
      }
    }
  }

  /** The results in ranked order: a permutation of the input, sorted by the comparator. */
  function SortByRank(s: seq<TeamResult>): (r: seq<TeamResult>)
    ensures SortedByRank(r)
    ensures multiset(r) == multiset(s)
  {
    if s == [] then []
    else
      assert s == [s[0]] + s[1..];
      InsertByRank(s[0], SortByRank(s[1..]))
  }

  /** getTeamResults: fails when some participant has no answer table, and is
      otherwise ranked with one row per participant. */
  function TeamResults(users: seq<User>, tables: map<string, AnswerTable>, bank: seq<Question>): (r: Result<seq<TeamResult>>)
    ensures r.Ok? <==> ParticipantNames(users) <= tables.Keys
    ensures r.Ok? ==> SortedByRank(r.value) && |r.value| == |Participants(users)|
  {
    assert ParticipantNames(users) <= tables.Keys <==> forall u :: u in Participants(users) ==> u.username in tables by {
      if forall u :: u in Participants(users) ==> u.username in tables {
        forall n | n in ParticipantNames(users) ensures n in tables {
          var u :| u in users && u.role == Participant && u.username == n;
          assert u in Participants(users);
        }
      }
    }
    match ResultsFor(Participants(users), tables, bank)
    case Err(f) => Err(f)
    case Ok(rs) =>
      var sorted := SortByRank(rs);
      assert |sorted| == |multiset(sorted)| == |multiset(rs)| == |rs|;
      Ok(sorted)
  }

  /** getTeamResults succeeds when every participant has an answer table; it then has
      one row per participant, ranked, whose solved count is the number of accepted
      answers and whose total is what calculateTeamPoints computes for the same name. */
  lemma TeamResultsCorrect(users: seq<User>, tables: map<string, AnswerTable>, bank: seq<Question>)
    requires ParticipantNames(users) <= tables.Keys
    ensures var r := TeamResults(users, tables, bank);
            && r.Ok?
            && |r.value| == |Participants(users)|
            && SortedByRank(r.value)
            && (forall e :: e in r.value ==>
                  exists u :: u in users && u.role == Participant && Describes(e, u, tables, bank)
                              && e.totalPoints == CalculateTeamPoints(tables, bank, e.username))
            && (forall u :: u in users && u.role == Participant ==>
                  exists e :: e in r.value && Describes(e, u, tables, bank))
  {
    var ps := Participants(users);
    var rs := ResultsFor(ps, tables, bank).value;
    PermutedResultsDescribe(ps, rs, SortByRank(rs), tables, bank);
  }

  /** Reordering the per-participant rows keeps, for every row, the participant it
      describes, and for every participant, a row describing it. */
  lemma PermutedResultsDescribe(ps: seq<User>, rs: seq<TeamResult>, sorted: seq<TeamResult>,
                                tables: map<string, AnswerTable>, bank: seq<Question>)
    requires |rs| == |ps| && forall i :: 0 <= i < |ps| ==> Describes(rs[i], ps[i], tables, bank)
    requires multiset(sorted) == multiset(rs)
    ensures forall e :: e in sorted ==> exists u :: u in ps && Describes(e, u, tables, bank)
    ensures forall u :: u in ps ==> exists e :: e in sorted && Describes(e, u, tables, bank)
  {
    forall e | e in sorted ensures exists u :: u in ps && Describes(e, u, tables, bank) {
      assert e in multiset(rs);
      var i :| 0 <= i < |rs| && rs[i] == e;
      assert ps[i] in ps;
    }
    forall u | u in ps ensures exists e :: e in sorted && Describes(e, u, tables, bank) {
      var i :| 0 <= i < |ps| && ps[i] == u;
      assert rs[i] in multiset(sorted);
    }
  }

  /** One entry of getTeams: the participant with calculateTeamPoints' total. */
  datatype TeamPoints = TeamPoints(id: nat, username: string, totalPoints: int)

  /** getTeams: every participant in table order; a participant whose points cannot be
      computed shows 0 rather than failing the request. */
  function Teams(users: seq<User>, tables: map<string, AnswerTable>, bank: seq<Question>): (r: seq<TeamPoints>)
    ensures |r| == |Participants(users)|
  {
    var ps := Participants(users);
    seq(|ps|, i requires 0 <= i < |ps| => TeamPoints(ps[i].id, ps[i].username, CalculateTeamPoints(tables, bank, ps[i].username)))
  }

  /** getTeams and getTeamResults agree participant by participant before ranking:
      same user, and calculateTeamPoints equals the total_points of the results query. */
  lemma TeamsAgreeWithResults(users: seq<User>, tables: map<string, AnswerTable>, bank: seq<Question>)
    requires ResultsFor(Participants(users), tables, bank).Ok?
    ensures var rs := ResultsFor(Participants(users), tables, bank).value;
            var ts := Teams(users, tables, bank);
            && |ts| == |rs|
            && forall i :: 0 <= i < |ts| ==>
                 ts[i].id == rs[i].id && ts[i].username == rs[i].username && ts[i].totalPoints == rs[i].totalPoints
  {
  }

  /** The example competition: questions worth 5, 3 and 10 points; bob answered the
      first two, and the admin alice accepted the first and rejected the second. */
  function ExampleDatabase(): Database
  {
    var bank := [Question(1, "Q1", 5, false, None), Question(2, "Q2", 3, false, None), Question(3, "Q3", 10, false, None)];
    var bob := User(1, "bob", Hashed("pw"), Participant);
    var alice := User(2, "alice", Hashed("secret"), Admin);
    var accepted := AnswerRow(1, 1, Some("a1"), None, 0, true, true, Some(1), Some(2), None);
    var rejected := AnswerRow(2, 2, Some("a2"), None, 0, true, false, Some(1), Some(2), None);
    Database([bob, alice], bank, [], map["bob" := AnswerTable([accepted, rejected], 3)], 3, 4, 1, 1)
  }

  /** The example is a consistent state: it satisfies every constraint `Consistent` collects. */
  lemma ExampleIsConsistent()
    ensures Consistent(ExampleDatabase())
  {
    var db := ExampleDatabase();
    assert UsersWellFormed(db.users, db.nextUserId);
    assert BankWellFormed(db.bank, db.nextQuestionId);
    assert ParticipantNames(db.users) == {"bob"} by {
      assert forall u :: u in db.users <==> u == db.users[0] || u == db.users[1];
    }
    assert db.tables.Keys == {"bob"};
    assert 1 in QuestionIds(db.bank) && 2 in QuestionIds(db.bank) by {
      assert db.bank[0] in db.bank && db.bank[1] in db.bank;
    }
    assert 2 in UserIds(db.users) by {
      assert db.users[1] in db.users;
    }
    assert AnswerTableWellFormed(db.tables["bob"], QuestionIds(db.bank), UserIds(db.users), db.clock);
  }

  /** In the example, bob ranks with one solved question and 5 points: the rejected
      answer counts for nothing. */
  lemma ExampleLeaderboard()
    ensures var db := ExampleDatabase();
            TeamResults(db.users, db.tables, db.bank) == Ok([TeamResult(1, "bob", 1, 5)])
  {
    var db := ExampleDatabase();
    var bob := db.users[0];
    assert db.users == [bob] + [db.users[1]];
    assert Participants(db.users) == [bob];
    var rows := db.tables["bob"].rows;
    assert AcceptedCount(rows) == 1;
    assert QuestionPoints(db.bank, 1) == 5;
    assert AcceptedPoints(rows, db.bank) == 5 by {
      assert rows[1..][1..] == [];
    }
    var entry := TeamResult(1, "bob", 1, 5);
    var r := ResultsFor([bob], db.tables, db.bank);
    assert r.Ok? && |r.value| == 1 && Describes(r.value[0], [bob][0], db.tables, db.bank);
    assert r.value == [entry];
    assert [entry][1..] == [];
    assert SortByRank([entry][1..]) == [];
    assert InsertByRank(entry, []) == [entry];
    assert SortByRank([entry]) == [entry];
  }
}
