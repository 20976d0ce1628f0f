/** The database as one object whose tables the request handlers change in place:
    registration and login, question assignment, answer submission and review,
    and question creation. */
module Store {
  import opened Schema
  import opened Auth
  import opened JsValues
  import Team
  import Questions

  /** LIMIT 10: the size of a participant's batch of questions. */
  const BatchSize: nat := 10

  function Min(a: nat, b: nat): nat { if a < b then a else b }

  predicate Distinct(s: seq<nat>)
  {
    forall i, j :: 0 <= i < j < |s| ==> s[i] != s[j]
  }

  /** What SELECT id FROM question_bank ORDER BY RANDOM() LIMIT 10 can return. */
  predicate IsDraw(picked: seq<nat>, bank: seq<Question>)
  {
    && Distinct(picked)
    && (forall k :: 0 <= k < |picked| ==> picked[k] in QuestionIds(bank))
    && |picked| == Min(BatchSize, |QuestionIds(bank)|)
  }

  /** The random draw: which ids come back is left open, only that they are
      distinct bank ids, as many as the bank and the limit allow. */
  method DrawQuestions(bank: seq<Question>) returns (picked: seq<nat>)
    ensures Distinct(picked)
    ensures forall k :: 0 <= k < |picked| ==> picked[k] in QuestionIds(bank)
    ensures |picked| == Min(BatchSize, |QuestionIds(bank)|)
  {
    picked := [];
    var remaining := QuestionIds(bank);
    while |picked| < BatchSize && remaining != {}
      invariant remaining <= QuestionIds(bank)
      invariant Distinct(picked)
      invariant forall k :: 0 <= k < |picked| ==> picked[k] in QuestionIds(bank) && picked[k] !in remaining
      invariant |picked| + |remaining| == |QuestionIds(bank)|
      invariant |picked| <= BatchSize
      decreases remaining
    {
      var q :| q in remaining;
      assert |remaining - {q}| == |remaining| - 1;
      picked := picked + [q];
      remaining := remaining - {q};
    }
  }

  /** The assignment rows inserted one by one for the drawn questions. */
  function AssignmentRows(userId: nat, questionIds: seq<nat>, firstId: nat): seq<Assignment>
  {
    seq(|questionIds|, k requires 0 <= k < |questionIds| => Assignment(firstId + k, userId, questionIds[k]))
  }

  /** Inserting one more drawn question appends one row with the next id. */
  lemma AssignmentRowsExtend(userId: nat, questionIds: seq<nat>, k: nat, firstId: nat)
    requires k < |questionIds|
    ensures AssignmentRows(userId, questionIds[..k + 1], firstId)
            == AssignmentRows(userId, questionIds[..k], firstId) + [Assignment(firstId + k, userId, questionIds[k])]
  {
    var longer := AssignmentRows(userId, questionIds[..k + 1], firstId);
    var shorter := AssignmentRows(userId, questionIds[..k], firstId);
    assert forall i :: 0 <= i < k ==> longer[i] == shorter[i];
  }

  /** Dealing a batch to a user who has none keeps the assignments well formed, and the
      user then has exactly as many assignments as questions were drawn. */
  lemma DealingKeepsAssignmentsWellFormed(
    assignments: seq<Assignment>, nextId: nat, userIds: set<nat>, questionIds: set<nat>,
    userId: nat, picked: seq<nat>)
    requires AssignmentsWellFormed(assignments, nextId, userIds, questionIds)
    requires userId in userIds
    requires CountAssignments(assignments, userId) == 0
    requires Distinct(picked)
    requires forall k :: 0 <= k < |picked| ==> picked[k] in questionIds
    ensures AssignmentsWellFormed(assignments + AssignmentRows(userId, picked, nextId), nextId + |picked|, userIds, questionIds)
    ensures CountAssignments(assignments + AssignmentRows(userId, picked, nextId), userId) == |picked|
  {
    var rows := AssignmentRows(userId, picked, nextId);
    var all := assignments + rows;
    forall i, j | 0 <= i < j < |all|
      ensures !(all[i].userId == all[j].userId && all[i].questionId == all[j].questionId)
    {
      if j >= |assignments| && i < |assignments| {
        assert all[i] in assignments;
      }
    }
    CountOfDealtBatch(assignments, rows, userId, picked, nextId);
  }

  /** Rows of other users do not count. */
  lemma {:induction false} CountOfDealtBatch(assignments: seq<Assignment>, rows: seq<Assignment>, userId: nat, picked: seq<nat>, nextId: nat)
    requires CountAssignments(assignments, userId) == 0
    requires rows == AssignmentRows(userId, picked, nextId)
    ensures CountAssignments(assignments + rows, userId) == |picked|
    decreases |assignments|
  {
    if assignments != [] {
      assert (assignments + rows)[1..] == assignments[1..] + rows;
      assert assignments[0] in assignments;
      CountOfDealtBatch(assignments[1..], rows, userId, picked, nextId);
    } else {
      assert assignments + rows == rows;
      CountOfBatch(userId, picked, nextId);
    }
  }

  /** Every row of a batch belongs to the user it was dealt to. */
  lemma {:induction false} CountOfBatch(userId: nat, picked: seq<nat>, nextId: nat)
    ensures CountAssignments(AssignmentRows(userId, picked, nextId), userId) == |picked|
    decreases |picked|
  {
    var rows := AssignmentRows(userId, picked, nextId);
    if picked != [] {
      assert rows[1..] == AssignmentRows(userId, picked[1..], nextId + 1);
      CountOfBatch(userId, picked[1..], nextId + 1);
    }
  }

  /** Dealing a drawn batch to a user who has none keeps the database consistent and
      gives the user one assignment per bank question, up to the batch size. */
  lemma DealingKeepsConsistent(db: Database, userId: nat, picked: seq<nat>)
    requires Consistent(db)
    requires userId in UserIds(db.users)
    requires CountAssignments(db.assignments, userId) == 0
    requires IsDraw(picked, db.bank)
    ensures var after := db.(assignments := db.assignments + AssignmentRows(userId, picked, db.nextAssignmentId),
                             nextAssignmentId := db.nextAssignmentId + |picked|);
            && Consistent(after)
            && CountAssignments(after.assignments, userId) == Min(BatchSize, |db.bank|)
  {
    DealingKeepsAssignmentsWellFormed(db.assignments, db.nextAssignmentId, UserIds(db.users), QuestionIds(db.bank), userId, picked);
    QuestionIdsCount(db.bank, db.nextQuestionId);
  }

  /** Replacing one answer table by a well-formed one keeps the database consistent. */
  lemma ReplacingTableKeepsConsistent(db: Database, name: string, t: AnswerTable)
    requires Consistent(db)
    requires name in db.tables
    requires AnswerTableWellFormed(t, QuestionIds(db.bank), UserIds(db.users), db.clock)
    ensures Consistent(db.(tables := db.tables[name := t]))
  {
  }

  /** Inserting a user under a fresh name with the next id, trigger included, keeps
      the database consistent, and the new user has no assignment yet. */
  lemma InsertingUserKeepsConsistent(db: Database, u: User)
    requires Consistent(db)
    requires u.id == db.nextUserId
    requires FindUserByName(db.users, u.username).None?
    ensures Consistent(db.(users := db.users + [u], nextUserId := db.nextUserId + 1,
                           tables := AfterUserInsert(db.tables, u)))
    ensures CountAssignments(db.assignments, u.id) == 0
  {
    var users' := db.users + [u];
    UserAppended(db.users, u);
    assert UsersWellFormed(users', db.nextUserId + 1) by {
      assert forall i :: 0 <= i < |db.users| ==> db.users[i] in db.users;
    }
    AssignmentsKeepWellFormed(db.assignments, db.nextAssignmentId, UserIds(db.users), UserIds(users'), QuestionIds(db.bank));
    TablesKeepWellFormed(db, u, users');
    NextUserHasNoAssignments(db);
  }

  lemma AssignmentsKeepWellFormed(assignments: seq<Assignment>, nextId: nat, u: set<nat>, u': set<nat>, q: set<nat>)
    requires AssignmentsWellFormed(assignments, nextId, u, q)
    requires u <= u'
    ensures AssignmentsWellFormed(assignments, nextId, u', q)
  {
  }

  lemma TablesKeepWellFormed(db: Database, u: User, users': seq<User>)
    requires Consistent(db)
    requires users' == db.users + [u]
    requires FindUserByName(db.users, u.username).None?
    ensures AfterUserInsert(db.tables, u).Keys == ParticipantNames(users')
    ensures forall name :: name in AfterUserInsert(db.tables, u) ==>
              AnswerTableWellFormed(AfterUserInsert(db.tables, u)[name], QuestionIds(db.bank), UserIds(users'), db.clock)
  {
    UserAppended(db.users, u);
    assert u.username !in db.tables;
    var tables' := AfterUserInsert(db.tables, u);
    forall name | name in tables'
      ensures AnswerTableWellFormed(tables'[name], QuestionIds(db.bank), UserIds(users'), db.clock)
    {
      if name in db.tables {
        TableWellFormedMonotone(db.tables[name], QuestionIds(db.bank), QuestionIds(db.bank), UserIds(db.users), UserIds(users'), db.clock, db.clock);
      }
    }
  }

  /** Every assignment refers to an existing user, whose id is below the next one. */
  lemma NextUserHasNoAssignments(db: Database)
    requires Consistent(db)
    ensures CountAssignments(db.assignments, db.nextUserId) == 0
  {
    forall a | a in db.assignments ensures a.userId != db.nextUserId {
      var i :| 0 <= i < |db.assignments| && db.assignments[i] == a;
      var j :| 0 <= j < |db.users| && db.users[j].id == a.userId;
    }
  }

  class QuizDb {
    var users: seq<User>
    var bank: seq<Question>
    var assignments: seq<Assignment>
    var tables: map<string, AnswerTable>
    var nextUserId: nat
    var nextQuestionId: nat
    var nextAssignmentId: nat
    var clock: nat

    function State(): Database
      reads this
    {
      Database(users, bank, assignments, tables, nextUserId, nextQuestionId, nextAssignmentId, clock)
    }

    ghost predicate Valid()
      reads this
    {
      Consistent(State())
    }

    /** initializeTables on an empty database. */
    constructor ()
      ensures Valid()
      ensures State() == Database([], [], [], map[], FirstSerial, FirstSerial, FirstSerial, 0)
    {
      users, bank, assignments, tables := [], [], [], map[];
      nextUserId, nextQuestionId, nextAssignmentId := FirstSerial, FirstSerial, FirstSerial;
      clock := 0;
    }

    /** Time passes between requests; the clock never goes back. */
    method AdvanceClock(elapsed: nat)
      requires Valid()
      modifies this
      ensures Valid()
      ensures State() == old(State()).(clock := old(clock) + elapsed)
    {
      clock := clock + elapsed;
      forall name | name in tables
        ensures AnswerTableWellFormed(tables[name], QuestionIds(bank), UserIds(users), clock)
      {
        TableWellFormedMonotone(tables[name], QuestionIds(bank), QuestionIds(bank), UserIds(users), UserIds(users), old(clock), clock);
      }
    }

    /** create_user_answers_table(username): CREATE TABLE IF NOT EXISTS. */
    method ProvisionAnswerTable(username: string)
      modifies this
      ensures State() == old(State()).(tables := Provisioned(old(tables), username))
    {
      if username !in tables {
        tables := tables[username := EmptyAnswerTable];
      }
    }

    /** Stores a new version of one participant's answer table. */
    method ReplaceTable(username: string, t: AnswerTable)
      requires Valid()
      requires username in tables
      requires AnswerTableWellFormed(t, QuestionIds(bank), UserIds(users), clock)
      modifies this
      ensures Valid()
      ensures State() == old(State()).(tables := old(tables)[username := t])
    {
      ReplacingTableKeepsConsistent(State(), username, t);
      tables := tables[username := t];
    }

    /** The batch insert shared by createTeam, registerUser and loginUser. */
    method AssignQuestions(userId: nat) returns (ghost picked: seq<nat>)
      requires Valid()
      requires userId in UserIds(users)
      requires CountAssignments(assignments, userId) == 0
      modifies this
      ensures Valid()
      ensures IsDraw(picked, bank)
      ensures State() == old(State()).(assignments := old(assignments) + AssignmentRows(userId, picked, old(nextAssignmentId)),
                                       nextAssignmentId := old(nextAssignmentId) + |picked|)
      ensures CountAssignments(assignments, userId) == Min(BatchSize, |bank|)
    {
      var draw := DrawQuestions(bank);
      picked := draw;
      ghost var db := State();
      var k := 0;
      while k < |draw|
        invariant 0 <= k <= |draw|
        invariant assignments == db.assignments + AssignmentRows(userId, draw[..k], db.nextAssignmentId)
        invariant nextAssignmentId == db.nextAssignmentId + k
        invariant users == db.users && bank == db.bank && tables == db.tables && clock == db.clock
        invariant nextUserId == db.nextUserId && nextQuestionId == db.nextQuestionId
      {
        AssignmentRowsExtend(userId, draw, k, db.nextAssignmentId);
        assignments := assignments + [Assignment(nextAssignmentId, userId, draw[k])];
        nextAssignmentId := nextAssignmentId + 1;
        k := k + 1;
      }
      assert draw[..k] == draw;
      DealingKeepsConsistent(db, userId, draw);
      assert State() == db.(assignments := db.assignments + AssignmentRows(userId, draw, db.nextAssignmentId),
                            nextAssignmentId := db.nextAssignmentId + |draw|);
    }

    /** createTeam(username): deals a batch unless the user already has one. */
    method CreateTeam(username: string) returns (r: Result<()>, ghost picked: seq<nat>)
      requires Valid()
      modifies this
      ensures Valid()
      ensures var owner := FindUserByName(old(users), username);
              && (owner.Some? && CountAssignments(old(assignments), owner.value.id) > 0 ==> r == Err(AlreadyAssigned))
              && (owner.None? ==> r == Err(ServerError(UnknownUser)))
              && (r.Ok? <==> owner.Some? && CountAssignments(old(assignments), owner.value.id) == 0)
              && (r.Ok? ==> IsDraw(picked, bank)
                            && State() == old(State()).(
                                 assignments := old(assignments) + AssignmentRows(owner.value.id, picked, old(nextAssignmentId)),
                                 nextAssignmentId := old(nextAssignmentId) + |picked|))
      ensures r.Err? ==> State() == old(State())
    {
      picked := [];
      var owner := FindUserByName(users, username);
      // The count's subquery yields NULL for an unknown name, which matches no row.
      var count := if owner.None? then 0 else CountAssignments(assignments, owner.value.id);
      Team.CreateTeamCheckCoerces(count);
      if GreaterThanNumber(CountColumn(count), 0) {
        r := Err(AlreadyAssigned);
        return;
      }
      if owner.None? {
        r := Err(ServerError(UnknownUser));
        return;
      }
      assert owner.value.id in UserIds(users);
      picked := AssignQuestions(owner.value.id);
      r := Ok(());
    }

    /** registerUser: the user row (with the trigger's table for a participant), then
        a batch of questions for a participant. */
    method Register(username: string, password: string, role: string) returns (r: Result<Account>, ghost picked: seq<nat>)
      requires Valid()
      modifies this
      ensures Valid()
      ensures ParseRole(role).None? ==> r == Err(ServerError(InvalidRole))
      ensures ParseRole(role).Some? && FindUserByName(old(users), username).Some? ==> r == Err(ServerError(DuplicateUsername))
      ensures r.Ok? <==> ParseRole(role).Some? && FindUserByName(old(users), username).None?
      ensures r.Err? ==> State() == old(State())
      ensures r.Ok? ==>
                var u := User(old(nextUserId), username, Hash(password), ParseRole(role).value);
                && r.value == Account(u.id, u.username, u.role)
                && users == old(users) + [u]
                && tables == AfterUserInsert(old(tables), u)
                && bank == old(bank) && clock == old(clock)
                && nextUserId == old(nextUserId) + 1 && nextQuestionId == old(nextQuestionId)
                && (u.role == Admin ==> assignments == old(assignments) && nextAssignmentId == old(nextAssignmentId))
                && (u.role == Participant ==>
                      && IsDraw(picked, bank)
                      && assignments == old(assignments) + AssignmentRows(u.id, picked, old(nextAssignmentId))
                      && nextAssignmentId == old(nextAssignmentId) + |picked|
                      && CountAssignments(assignments, u.id) == Min(BatchSize, |bank|))
    {
      picked := [];
      var parsed := ParseRole(role);
      if parsed.None? {
        r := Err(ServerError(InvalidRole));
        return;
      }
      if FindUserByName(users, username).Some? {
        r := Err(ServerError(DuplicateUsername));
        return;
      }
      var u := User(nextUserId, username, Hash(password), parsed.value);
      InsertUserRow(u);
      if u.role == Participant {
        picked := AssignQuestions(u.id);
      }
      r := Ok(Account(u.id, u.username, u.role));
    }

    /** INSERT INTO users with its AFTER INSERT trigger. */
    method InsertUserRow(u: User)
      requires Valid()
      requires u.id == nextUserId
      requires FindUserByName(users, u.username).None?
      modifies this
      ensures Valid()
      ensures State() == old(State()).(users := old(users) + [u], nextUserId := old(nextUserId) + 1,
                                       tables := AfterUserInsert(old(tables), u))
      ensures CountAssignments(assignments, u.id) == 0 && u.id in UserIds(users)
    {
      ghost var db := State();
      InsertingUserKeepsConsistent(db, u);
      UserAppended(db.users, u);
      users := users + [u];
      nextUserId := nextUserId + 1;
      if u.role == Participant {
        ProvisionAnswerTable(u.username);
      }
      assert State() == db.(users := db.users + [u], nextUserId := db.nextUserId + 1,
                            tables := AfterUserInsert(db.tables, u));
    }

    /** loginUser: the credential check, then a batch for a participant who has none. */
    method Login(username: string, password: string) returns (r: Result<Session>, ghost picked: seq<nat>)
      requires Valid()
      modifies this
      ensures Valid()
      ensures var found := FindUserByName(old(users), username);
              && (r.Err? <==> found.None? || !Matches(password, found.value.password))
              && (r.Err? ==> r == Err(InvalidCredentials))
              && (r.Ok? ==> var u := found.value;
                   && r.value == Session(Token(u.id, u.username, u.role), Account(u.id, u.username, u.role))
                   && if u.role == Participant && CountAssignments(old(assignments), u.id) == 0 then
                        && IsDraw(picked, bank)
                        && State() == old(State()).(
                             assignments := old(assignments) + AssignmentRows(u.id, picked, old(nextAssignmentId)),
                             nextAssignmentId := old(nextAssignmentId) + |picked|)
                        && CountAssignments(assignments, u.id) == Min(BatchSize, |bank|)
                      else State() == old(State()))
      ensures r.Err? ==> State() == old(State())
    {
      picked := [];
      var found := FindUserByName(users, username);
      if found.None? {
        r := Err(InvalidCredentials);
        return;
      }
      var u := found.value;
      if !Matches(password, u.password) {
        r := Err(InvalidCredentials);
        return;
      }
      var token := Token(u.id, u.username, u.role);
      if u.role == Participant && LoginSeesNoAssignments(CountAssignments(assignments, u.id)) {
        assert u.id in UserIds(users);
        picked := AssignQuestions(u.id);
      }
      r := Ok(Session(token, Account(u.id, u.username, u.role)));
    }

    /** submitAnswer (routed): only a question assigned to the user is accepted; every
        submission is appended, even for a question already answered. */
    method SubmitAnswer(username: string, questionId: Option<int>, textAnswer: Option<string>, imageUrl: Option<string>)
      returns (r: Result<()>)
      requires Valid()
      modifies this
      ensures Valid()
      ensures questionId.None? ==> r == Err(QuestionIdRequired)
      ensures questionId.Some? && !FitsInteger(questionId.value) ==> r == Err(ServerError(IdOutOfRange))
      ensures (questionId.Some? && FitsInteger(questionId.value)
               && !Team.AssignedTo(old(users), old(assignments), username, questionId.value)) ==> r == Err(NotAssigned)
      ensures r.Ok? <==> questionId.Some? && FitsInteger(questionId.value)
                         && Team.AssignedTo(old(users), old(assignments), username, questionId.value)
                         && username in old(tables)
      ensures r.Err? ==> State() == old(State())
      ensures r.Ok? ==> questionId.value >= 0
                        && State() == old(State()).(tables := old(tables)[username :=
                             InsertAnswer(old(tables)[username], questionId.value, Team.TextOrNull(textAnswer), imageUrl, old(clock))])
    {
      if questionId.None? {
        r := Err(QuestionIdRequired);
        return;
      }
      var qid := questionId.value;
      if !FitsInteger(qid) {
        r := Err(ServerError(IdOutOfRange));
        return;
      }
      if !Team.AssignedTo(users, assignments, username, qid) {
        r := Err(NotAssigned);
        return;
      }
      if username !in tables {
        r := Err(ServerError(MissingTable));
        return;
      }
      var u, a :| u in users && a in assignments && a.userId == u.id && u.username == username && a.questionId == qid;
      var k :| 0 <= k < |assignments| && assignments[k] == a;
      assert qid in QuestionIds(bank);
      var t := tables[username];
      InsertAnswerWellFormed(t, QuestionIds(bank), UserIds(users), clock, qid, Team.TextOrNull(textAnswer), imageUrl);
      ReplaceTable(username, InsertAnswer(t, qid, Team.TextOrNull(textAnswer), imageUrl, clock));
      r := Ok(());
    }

    /** reviewAnswer (routed): the verdict on one answer, found by its id. */
    method ReviewAnswer(username: string, answerId: int, isAccepted: bool, feedback: Option<string>, reviewerId: nat)
      returns (r: Result<AnswerRow>)
      requires Valid()
      modifies this
      ensures Valid()
      ensures username !in old(tables) ==> r == Err(ServerError(MissingTable))
      ensures username in old(tables) && !FitsInteger(answerId) ==> r == Err(ServerError(IdOutOfRange))
      ensures (username in old(tables) && FitsInteger(answerId)
               && Team.ReviewTarget(old(tables)[username].rows, answerId).None?) ==> r == Err(AnswerNotFound)
      ensures r.Ok? <==> username in old(tables) && FitsInteger(answerId)
                         && Team.ReviewTarget(old(tables)[username].rows, answerId).Some?
                         && reviewerId in UserIds(old(users))
      ensures r.Err? ==> State() == old(State())
      ensures r.Ok? ==>
                var t := old(tables)[username];
                && r.value == Team.Reviewed(Team.ReviewTarget(t.rows, answerId).value, isAccepted, feedback, reviewerId, old(clock))
                && r.value.id == answerId
                && State() == old(State()).(tables := old(tables)[username :=
                     t.(rows := Team.ApplyReview(t.rows, answerId, isAccepted, feedback, reviewerId, old(clock)))])
    {
      if username !in tables {
        r := Err(ServerError(MissingTable));
        return;
      }
      if !FitsInteger(answerId) {
        r := Err(ServerError(IdOutOfRange));
        return;
      }
      var t := tables[username];
      var target := Team.ReviewTarget(t.rows, answerId);
      if target.None? {
        r := Err(AnswerNotFound);
        return;
      }
      if reviewerId !in UserIds(users) {
        r := Err(ServerError(UnknownReviewer));
        return;
      }
      var updated := t.(rows := Team.ApplyReview(t.rows, answerId, isAccepted, feedback, reviewerId, clock));
      Team.ApplyReviewWellFormed(t, QuestionIds(bank), UserIds(users), clock, answerId, isAccepted, feedback, reviewerId);
      ReplaceTable(username, updated);
      r := Ok(Team.Reviewed(target.value, isAccepted, feedback, reviewerId, clock));
    }

    /** createQuestion: validates the input and inserts one bank row, whose points
        the INTEGER column reads from the field. */
    method CreateQuestion(text: Option<string>, points: Option<JsValue>, requiresImage: Option<bool>, imageUrl: Option<string>)
      returns (r: Result<Question>)
      requires Valid()
      modifies this
      ensures Valid()
      ensures !Questions.AcceptsQuestionInput(text, points) ==> r == Err(QuestionInputRequired)
      ensures Questions.AcceptsQuestionInput(text, points) && IntegerParameter(points.value).None? ==>
                r == Err(ServerError(NotAnInteger))
      ensures r.Ok? <==> && Questions.AcceptsQuestionInput(text, points)
                         && IntegerParameter(points.value).Some?
                         && FitsInteger(IntegerParameter(points.value).value)
      ensures r.Err? ==> State() == old(State())
      ensures r.Ok? ==>
                && r.value == Question(old(nextQuestionId), text.value, IntegerParameter(points.value).value,
                                       Questions.RequiresImageOrDefault(requiresImage), imageUrl)
                && State() == old(State()).(bank := old(bank) + [r.value], nextQuestionId := old(nextQuestionId) + 1)
    {
      if !Questions.AcceptsQuestionInput(text, points) {
        r := Err(QuestionInputRequired);
        return;
      }
      var value := IntegerParameter(points.value);
      if value.None? {
        r := Err(ServerError(NotAnInteger));
        return;
      }
      if !FitsInteger(value.value) {
        r := Err(ServerError(PointsOutOfRange));
        return;
      }
      var q := Question(nextQuestionId, text.value, value.value, Questions.RequiresImageOrDefault(requiresImage), imageUrl);
      ghost var before := State();
      QuestionAppended(bank, q);
      bank := bank + [q];
      nextQuestionId := nextQuestionId + 1;
      forall name | name in tables
        ensures AnswerTableWellFormed(tables[name], QuestionIds(bank), UserIds(users), clock)
      {
        TableWellFormedMonotone(tables[name], QuestionIds(before.bank), QuestionIds(bank), UserIds(users), UserIds(users), clock, clock);
      }
      r := Ok(q);
    }

    /** The unrouted submitAnswer: no assignment check, the text stored as given. */
    method SubmitAnswerUnchecked(username: string, questionId: int, textAnswer: Option<string>, imageUrl: Option<string>)
      returns (r: Result<()>)
      requires Valid()
      modifies this
      ensures Valid()
      ensures username !in old(tables) ==> r == Err(ServerError(MissingTable))
      ensures username in old(tables) && !FitsInteger(questionId) ==> r == Err(ServerError(IdOutOfRange))
      ensures username in old(tables) && FitsInteger(questionId) && questionId !in QuestionIds(old(bank)) ==>
                r == Err(ServerError(UnknownQuestion))
      ensures r.Ok? <==> username in old(tables) && FitsInteger(questionId) && questionId in QuestionIds(old(bank))
      ensures r.Err? ==> State() == old(State())
      ensures r.Ok? ==> questionId >= 0
                        && State() == old(State()).(tables := old(tables)[username :=
                             InsertAnswer(old(tables)[username], questionId, textAnswer, imageUrl, old(clock))])
    {
      if username !in tables {
        r := Err(ServerError(MissingTable));
        return;
      }
      if !FitsInteger(questionId) {
        r := Err(ServerError(IdOutOfRange));
        return;
      }
      if FindQuestion(bank, questionId).None? {
        r := Err(ServerError(UnknownQuestion));
        return;
      }
      var t := tables[username];
      InsertAnswerWellFormed(t, QuestionIds(bank), UserIds(users), clock, questionId, textAnswer, imageUrl);
      ReplaceTable(username, InsertAnswer(t, questionId, textAnswer, imageUrl, clock));
      r := Ok(());
    }

    /** The unrouted reviewAnswer: one verdict for every answer to a question. */
    method ReviewByQuestion(username: string, questionId: int, isAccepted: bool, feedback: Option<string>)
      returns (r: Result<()>)
      requires Valid()
      modifies this
      ensures Valid()
      ensures r.Err? <==> username !in old(tables) || !FitsInteger(questionId)
      ensures username !in old(tables) ==> r == Err(ServerError(MissingTable))
      ensures username in old(tables) && !FitsInteger(questionId) ==> r == Err(ServerError(IdOutOfRange))
      ensures r.Err? ==> State() == old(State())
      ensures r.Ok? ==>
                var t := old(tables)[username];
                State() == old(State()).(tables := old(tables)[username :=
                  t.(rows := Questions.SetVerdictByQuestion(t.rows, questionId, isAccepted, feedback))])
    {
      if username !in tables {
        r := Err(ServerError(MissingTable));
        return;
      }
      if !FitsInteger(questionId) {
        r := Err(ServerError(IdOutOfRange));
        return;
      }
      var t := tables[username];
      var rows := Questions.SetVerdictByQuestion(t.rows, questionId, isAccepted, feedback);
      Questions.SetVerdictWellFormed(t, QuestionIds(bank), UserIds(users), clock, questionId, isAccepted, feedback);
      ReplaceTable(username, t.(rows := rows));
      r := Ok(());
    }
  }
}
