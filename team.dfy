/** The participant-facing reads and the admin review of the answer store:
    the current question, the answer listings and the single-row review update. */
module Team {
  import opened Schema
  import opened JsValues

  // ---------------------------------------------------------------------------
  // createTeam's check of the assignment count
  // ---------------------------------------------------------------------------

  /** existingAssignments.rows[0].count > 0 compares the driver's string with a
      number, which converts the string, so the check holds exactly when the user
      has an assignment. */
  lemma CreateTeamCheckCoerces(count: nat)
    ensures GreaterThanNumber(CountColumn(count), 0) <==> count > 0
  {
    DecimalRoundTrip(count);
  }

  // ---------------------------------------------------------------------------
  // getCurrentQuestion
  // ---------------------------------------------------------------------------

  datatype Current = Completed | Pending(assignmentId: nat, question: Question)

  /** Some row of the answer table answers the question. */
  predicate Answered(rows: seq<AnswerRow>, qid: nat)
  {
    exists r :: r in rows && r.questionId == qid
  }

  /** An assignment row the query keeps: it is the user's, its question joins a
      bank row, and NOT EXISTS an answer row for that bank row's id. */
  predicate IsPending(a: Assignment, bank: seq<Question>, rows: seq<AnswerRow>, userId: nat)
  {
    && a.userId == userId
    && match FindQuestion(bank, a.questionId)
       case None => false
       case Some(q) => !Answered(rows, q.id)
  }

  /** ORDER BY qa.id LIMIT 1 over the assignments a filter keeps. */
  function LowestPending(assignments: seq<Assignment>, pending: Assignment -> bool): (r: Option<Assignment>)
    ensures r.Some? ==> r.value in assignments && pending(r.value)
    ensures r.Some? ==> forall a :: a in assignments && pending(a) ==> r.value.id <= a.id
    ensures r.None? <==> forall a :: a in assignments ==> !pending(a)
  {
    if assignments == [] then None
    else
      var rest := LowestPending(assignments[1..], pending);
      assert forall a :: a in assignments ==> a == assignments[0] || a in assignments[1..];
      if pending(assignments[0]) && (rest.None? || assignments[0].id <= rest.value.id) then Some(assignments[0])
      else rest
  }

  /** Two filters that keep the same assignments pick the same one. */
  lemma {:induction false} LowestPendingSameFilter(assignments: seq<Assignment>, p1: Assignment -> bool, p2: Assignment -> bool)
    requires forall a :: a in assignments ==> p1(a) == p2(a)
    ensures LowestPending(assignments, p1) == LowestPending(assignments, p2)
  {
    if assignments != [] {
      assert forall a :: a in assignments[1..] ==> a in assignments;
      LowestPendingSameFilter(assignments[1..], p1, p2);
    }
  }

  /** getCurrentQuestion for the user (userId, username) as the token names it. */
  function CurrentQuestion(
    assignments: seq<Assignment>, bank: seq<Question>, tables: map<string, AnswerTable>,
    userId: nat, username: string): (r: Result<Current>)
    ensures r.Err? <==> username !in tables
  {
    if username !in tables then Err(ServerError(MissingTable))
    else
      var rows := tables[username].rows;
      match LowestPending(assignments, a => IsPending(a, bank, rows, userId))
      case None => Ok(Completed)
      case Some(a) => Ok(Pending(a.id, FindQuestion(bank, a.questionId).value))
  }

  /** The question offered is that of the lowest-id assignment of the user whose
      question has no answer row. */
  lemma CurrentQuestionIsLowestUnanswered(
    assignments: seq<Assignment>, bank: seq<Question>, tables: map<string, AnswerTable>,
    userId: nat, username: string, assignmentId: nat, q: Question)
    requires CurrentQuestion(assignments, bank, tables, userId, username) == Ok(Pending(assignmentId, q))
    ensures username in tables && q in bank && !Answered(tables[username].rows, q.id)
    ensures exists a :: a in assignments && a.id == assignmentId && a.userId == userId && a.questionId == q.id
    ensures forall b :: (b in assignments && b.userId == userId && b.questionId in QuestionIds(bank)
                         && !Answered(tables[username].rows, b.questionId)) ==> assignmentId <= b.id
  {
    var rows := tables[username].rows;
    var a := LowestPending(assignments, a => IsPending(a, bank, rows, userId)).value;
    assert a.id == assignmentId;
    forall b | b in assignments && b.userId == userId && b.questionId in QuestionIds(bank) && !Answered(rows, b.questionId)
      ensures assignmentId <= b.id
    {
      assert IsPending(b, bank, rows, userId);
    }
  }

  /** Completed is reported iff every question assigned to the user has an answer row
      (the foreign key guarantees every assigned question is in the bank). */
  lemma CompletedIffAllAnswered(
    assignments: seq<Assignment>, bank: seq<Question>, tables: map<string, AnswerTable>,
    userId: nat, username: string)
    requires username in tables
    requires forall a :: a in assignments ==> a.questionId in QuestionIds(bank)
    ensures CurrentQuestion(assignments, bank, tables, userId, username) == Ok(Completed)
        <==> forall a :: a in assignments && a.userId == userId ==> Answered(tables[username].rows, a.questionId)
  {
    var rows := tables[username].rows;
    var pending := a => IsPending(a, bank, rows, userId);
    if forall a :: a in assignments && a.userId == userId ==> Answered(rows, a.questionId) {
      forall a | a in assignments ensures !pending(a) {
        if a.userId == userId {
          assert Answered(rows, FindQuestion(bank, a.questionId).value.id);
        }
      }
    } else {
      var a :| a in assignments && a.userId == userId && !Answered(rows, a.questionId);
      assert pending(a);
    }
  }

  /** Submitting an answer for a question retires it: that question is never offered
      again, and every other pending assignment stays pending. */
  lemma AnsweringRetiresQuestion(a: Assignment, bank: seq<Question>, rows: seq<AnswerRow>, row: AnswerRow, userId: nat)
    ensures a.questionId == row.questionId ==> !IsPending(a, bank, rows + [row], userId)
    ensures a.questionId != row.questionId && a.questionId in QuestionIds(bank) ==>
              (IsPending(a, bank, rows + [row], userId) <==> IsPending(a, bank, rows, userId))
  {
    assert row in rows + [row];
    assert forall r :: r in rows + [row] <==> r in rows || r == row;
  }

  // ---------------------------------------------------------------------------
  // submitAnswer (the routed one)
  // ---------------------------------------------------------------------------

  /** The assignment check: a question_assignments row joins a users row with that
      username and carries that question id. */
  predicate AssignedTo(users: seq<User>, assignments: seq<Assignment>, username: string, questionId: int)
  {
    exists u, a :: u in users && a in assignments && a.userId == u.id && u.username == username && a.questionId == questionId
  }

  /** With unique user names the check holds exactly when the user with that name
      has an assignment for the question. */
  lemma AssignedToByLookup(users: seq<User>, nextId: nat, assignments: seq<Assignment>, username: string, questionId: int)
    requires UsersWellFormed(users, nextId)
    ensures AssignedTo(users, assignments, username, questionId) <==>
              && FindUserByName(users, username).Some?
              && exists a :: a in assignments && a.userId == FindUserByName(users, username).value.id && a.questionId == questionId
  {
    if AssignedTo(users, assignments, username, questionId) {
      var u, a :| u in users && a in assignments && a.userId == u.id && u.username == username && a.questionId == questionId;
      var v := FindUserByName(users, username).value;
      var i :| 0 <= i < |users| && users[i] == u;
      var j :| 0 <= j < |users| && users[j] == v;
      assert i == j;
    }
  }

  /** text_answer || null: an empty or missing text is stored as NULL. */
  function TextOrNull(text: Option<string>): (r: Option<string>)
    ensures r.None? <==> text.None? || text.value == ""
    ensures r.Some? ==> r == text
  {
    if text.Some? && text.value != "" then text else None
  }

  // ---------------------------------------------------------------------------
  // getTeamAnswers and getParticipantAnswers
  // ---------------------------------------------------------------------------

  /** A row of getTeamAnswers: the answer, the joined question columns and the
      reviewer's name from the LEFT JOIN on users. */
  datatype AnswerView = AnswerView(
    row: AnswerRow, questionText: string, points: int, requiresImage: bool, reviewedByUsername: Option<string>)

  /** The LEFT JOIN users u ON ua.reviewed_by = u.id: the reviewer's name, or NULL
      when the row is unreviewed or no user has that id. */
  function ReviewerName(users: seq<User>, reviewedBy: Option<nat>): (r: Option<string>)
    ensures r.Some? <==> reviewedBy.Some? && reviewedBy.value in UserIds(users)
    ensures r.Some? ==> exists u :: u in users && u.id == reviewedBy.value && u.username == r.value
  {
    match reviewedBy
    case None => None
    case Some(id) =>
      match FindUserById(users, id)
      case None => None
      case Some(u) => Some(u.username)
  }

  /** The row has a bank question to join with. */
  predicate JoinsQuestion(row: AnswerRow, bank: seq<Question>)
  {
    row.questionId in QuestionIds(bank)
  }

  /** A view of getTeamAnswers for its row: the text, points and image flag of the
      bank question with the row's question id, and the reviewer's name. */
  predicate DescribesAnswer(v: AnswerView, bank: seq<Question>, users: seq<User>)
  {
    && JoinsQuestion(v.row, bank)
    && v.questionText == FindQuestion(bank, v.row.questionId).value.text
    && v.points == FindQuestion(bank, v.row.questionId).value.points
    && v.requiresImage == FindQuestion(bank, v.row.questionId).value.requiresImage
    && v.reviewedByUsername == ReviewerName(users, v.row.reviewedBy)
  }

  /** The inner join with the bank (a row without a bank question drops out) and the
      left join with users. */
  function JoinAnswers(rows: seq<AnswerRow>, bank: seq<Question>, users: seq<User>): (r: seq<AnswerView>)
    ensures |r| <= |rows|
    ensures forall i :: 0 <= i < |r| ==> r[i].row in rows && DescribesAnswer(r[i], bank, users)
    ensures (forall x :: x in rows ==> JoinsQuestion(x, bank)) ==>
              |r| == |rows| && forall i :: 0 <= i < |rows| ==> r[i].row == rows[i]
  {
    if rows == [] then []
    else
      var rest := JoinAnswers(rows[1..], bank, users);
      assert forall x :: x in rows[1..] ==> x in rows;
      match FindQuestion(bank, rows[0].questionId)
      case None =>
        assert rows[0] in rows && !JoinsQuestion(rows[0], bank);
        rest
      case Some(q) =>
        var v := AnswerView(rows[0], q.text, q.points, q.requiresImage, ReviewerName(users, rows[0].reviewedBy));
        assert DescribesAnswer(v, bank, users);
        [v] + rest
  }

  /** Every answer row with a bank question shows up in the join. */
  lemma {:induction false} JoinAnswersKeepsJoinableRows(rows: seq<AnswerRow>, bank: seq<Question>, users: seq<User>, x: AnswerRow)
    requires x in rows && JoinsQuestion(x, bank)
    ensures exists i :: 0 <= i < |JoinAnswers(rows, bank, users)| && JoinAnswers(rows, bank, users)[i].row == x
  {
    var r := JoinAnswers(rows, bank, users);
    var rest := JoinAnswers(rows[1..], bank, users);
    match FindQuestion(bank, rows[0].questionId)
    case None =>
      assert r == rest;
      assert x != rows[0] && x in rows[1..];
      JoinAnswersKeepsJoinableRows(rows[1..], bank, users, x);
    case Some(q) =>
      var head := AnswerView(rows[0], q.text, q.points, q.requiresImage, ReviewerName(users, rows[0].reviewedBy));
      assert r == [head] + rest;
      if x == rows[0] {
        assert r[0].row == x;
      } else {
        assert x in rows[1..];
        JoinAnswersKeepsJoinableRows(rows[1..], bank, users, x);
        var i :| 0 <= i < |rest| && rest[i].row == x;
        assert r[i + 1].row == x;
      }
  }

  /** getTeamAnswers(username): the table's answers ORDER BY submitted_at DESC. */
  function TeamAnswers(tables: map<string, AnswerTable>, bank: seq<Question>, users: seq<User>, username: string)
    : (r: Result<seq<AnswerView>>)
    ensures r.Err? <==> username !in tables
  {
    if username !in tables then Err(ServerError(MissingTable))
    else Ok(JoinAnswers(Reverse(tables[username].rows), bank, users))
  }

  /** In a well-formed table the listing holds every answer exactly once, newest first. */
  lemma TeamAnswersNewestFirst(
    tables: map<string, AnswerTable>, bank: seq<Question>, users: seq<User>, username: string, clock: nat)
    requires username in tables
    requires AnswerTableWellFormed(tables[username], QuestionIds(bank), UserIds(users), clock)
    ensures var rows := tables[username].rows;
            var r := TeamAnswers(tables, bank, users, username);
            && r.Ok?
            && |r.value| == |rows|
            && (forall i :: 0 <= i < |rows| ==> r.value[i].row == rows[|rows| - 1 - i])
            && (forall i, j :: 0 <= i < j < |rows| ==> r.value[i].row.submittedAt >= r.value[j].row.submittedAt)
  {
    var rows := tables[username].rows;
    var newest := Reverse(rows);
    forall x | x in newest ensures x.questionId in QuestionIds(bank) {
      var k :| 0 <= k < |newest| && newest[k] == x;
      assert RowWellFormed(rows[|rows| - 1 - k], tables[username].nextId, QuestionIds(bank), UserIds(users), clock);
    }
  }

  /** A row of getParticipantAnswers: the answer with its question's text and points. */
  datatype ParticipantView = ParticipantView(row: AnswerRow, question: string, points: int)

  /** A view of getParticipantAnswers for its row: the text and points of the bank
      question with the row's question id. */
  predicate DescribesParticipantAnswer(v: ParticipantView, bank: seq<Question>)
  {
    && JoinsQuestion(v.row, bank)
    && v.question == FindQuestion(bank, v.row.questionId).value.text
    && v.points == FindQuestion(bank, v.row.questionId).value.points
  }

  /** The inner join with the bank. */
  function JoinParticipantAnswers(rows: seq<AnswerRow>, bank: seq<Question>): (r: seq<ParticipantView>)
    ensures |r| <= |rows|
    ensures forall i :: 0 <= i < |r| ==> r[i].row in rows && DescribesParticipantAnswer(r[i], bank)
  {
    if rows == [] then []
    else
      var rest := JoinParticipantAnswers(rows[1..], bank);
      assert forall x :: x in rows[1..] ==> x in rows;
      match FindQuestion(bank, rows[0].questionId)
      case None => rest
      case Some(q) =>
        var v := ParticipantView(rows[0], q.text, q.points);
        assert DescribesParticipantAnswer(v, bank);
        [v] + rest
  }

  /** getParticipantAnswers(username): the same rows as getTeamAnswers, fewer columns. */
  function ParticipantAnswers(tables: map<string, AnswerTable>, bank: seq<Question>, username: string)
    : (r: Result<seq<ParticipantView>>)
    ensures r.Err? <==> username !in tables
  {
    if username !in tables then Err(ServerError(MissingTable))
    else Ok(JoinParticipantAnswers(Reverse(tables[username].rows), bank))
  }

  lemma {:induction false} JoinsAgree(rows: seq<AnswerRow>, bank: seq<Question>, users: seq<User>)
    ensures |JoinParticipantAnswers(rows, bank)| == |JoinAnswers(rows, bank, users)|
    ensures forall i :: 0 <= i < |JoinAnswers(rows, bank, users)| ==>
              var v := JoinAnswers(rows, bank, users)[i];
              var p := JoinParticipantAnswers(rows, bank)[i];
              p.row == v.row && p.question == v.questionText && p.points == v.points
  {
    if rows != [] {
      JoinsAgree(rows[1..], bank, users);
      var v, p := JoinAnswers(rows, bank, users), JoinParticipantAnswers(rows, bank);
      var v', p' := JoinAnswers(rows[1..], bank, users), JoinParticipantAnswers(rows[1..], bank);
      match FindQuestion(bank, rows[0].questionId)
      case None =>
        assert v == v' && p == p';
      case Some(q) =>
        assert v[1..] == v' && p[1..] == p';
        assert p[0].row == v[0].row && p[0].question == v[0].questionText && p[0].points == v[0].points;
    }
  }

  /** Both listings fail together and otherwise show the same answers with the same
      question text and points in the same order. */
  lemma ListingsAgree(tables: map<string, AnswerTable>, bank: seq<Question>, users: seq<User>, username: string)
    ensures TeamAnswers(tables, bank, users, username).Ok? <==> ParticipantAnswers(tables, bank, username).Ok?
    ensures TeamAnswers(tables, bank, users, username).Ok? ==>
              var v := TeamAnswers(tables, bank, users, username).value;
              var p := ParticipantAnswers(tables, bank, username).value;
              && |v| == |p|
              && forall i :: 0 <= i < |v| ==> p[i].row == v[i].row && p[i].question == v[i].questionText && p[i].points == v[i].points
  {
    if username in tables {
      JoinsAgree(Reverse(tables[username].rows), bank, users);
    }
  }

  // ---------------------------------------------------------------------------
  // reviewAnswer (the routed one: UPDATE ... WHERE id = answerId)
  // ---------------------------------------------------------------------------

  /** The SET list of the review: the verdict, the feedback, the time and the reviewer. */
  function Reviewed(row: AnswerRow, accepted: bool, feedback: Option<string>, reviewerId: nat, now: nat): (r: AnswerRow)
    ensures r.isReviewed && r.isAccepted == accepted && r.adminFeedback == feedback
    ensures r.reviewedAt == Some(now) && r.reviewedBy == Some(reviewerId)
    ensures r.id == row.id && r.questionId == row.questionId && r.submittedAt == row.submittedAt
    ensures r.textAnswer == row.textAnswer && r.imageAnswerUrl == row.imageAnswerUrl
  {
    row.(isReviewed := true, isAccepted := accepted, adminFeedback := feedback,
         reviewedAt := Some(now), reviewedBy := Some(reviewerId))
  }

  /** The table's rows after UPDATE ... WHERE id = answerId: only rows with that id change. */
  function ApplyReview(rows: seq<AnswerRow>, answerId: int, accepted: bool, feedback: Option<string>, reviewerId: nat, now: nat)
    : (r: seq<AnswerRow>)
    ensures |r| == |rows|
    ensures forall i :: 0 <= i < |rows| && rows[i].id != answerId ==> r[i] == rows[i]
    ensures forall i :: 0 <= i < |rows| && rows[i].id == answerId ==> r[i] == Reviewed(rows[i], accepted, feedback, reviewerId, now)
  {
    if rows == [] then []
    else
      [if rows[0].id == answerId then Reviewed(rows[0], accepted, feedback, reviewerId, now) else rows[0]]
      + ApplyReview(rows[1..], answerId, accepted, feedback, reviewerId, now)
  }

  /** RETURNING *: the row with that id, if the update touched one. */
  function ReviewTarget(rows: seq<AnswerRow>, answerId: int): (r: Option<AnswerRow>)
    ensures r.Some? ==> r.value in rows && r.value.id == answerId
    ensures r.None? <==> forall x :: x in rows ==> x.id != answerId
  {
    if rows == [] then None
    else if rows[0].id == answerId then Some(rows[0])
    else ReviewTarget(rows[1..], answerId)
  }

  /** An unknown answer id leaves the table exactly as it was. */
  lemma ReviewOfUnknownIdChangesNothing(rows: seq<AnswerRow>, answerId: int, accepted: bool, feedback: Option<string>, reviewerId: nat, now: nat)
    requires ReviewTarget(rows, answerId).None?
    ensures ApplyReview(rows, answerId, accepted, feedback, reviewerId, now) == rows
  {
    var r := ApplyReview(rows, answerId, accepted, feedback, reviewerId, now);
    forall i | 0 <= i < |rows| ensures r[i] == rows[i] {
      assert rows[i] in rows;
    }
  }

  /** With unique row ids the update changes exactly one row, at the target's position. */
  lemma ReviewChangesOneRow(t: AnswerTable, q: set<nat>, u: set<nat>, clock: nat, k: nat,
                            accepted: bool, feedback: Option<string>, reviewerId: nat, now: nat)
    requires AnswerTableWellFormed(t, q, u, clock)
    requires k < |t.rows|
    ensures var r := ApplyReview(t.rows, t.rows[k].id, accepted, feedback, reviewerId, now);
            && r[k] == Reviewed(t.rows[k], accepted, feedback, reviewerId, now)
            && forall i :: 0 <= i < |t.rows| && i != k ==> r[i] == t.rows[i]
  {
    forall i | 0 <= i < |t.rows| && i != k ensures t.rows[i].id != t.rows[k].id {
      if i < k { assert t.rows[i].id < t.rows[k].id; } else { assert t.rows[k].id < t.rows[i].id; }
    }
  }

  /** A review by a known reviewer, stamped now, keeps a table well formed. */
  lemma ApplyReviewWellFormed(t: AnswerTable, q: set<nat>, u: set<nat>, clock: nat,
                              answerId: int, accepted: bool, feedback: Option<string>, reviewerId: nat)
    requires AnswerTableWellFormed(t, q, u, clock)
    requires reviewerId in u
    ensures AnswerTableWellFormed(t.(rows := ApplyReview(t.rows, answerId, accepted, feedback, reviewerId, clock)), q, u, clock)
  {
    var rows := ApplyReview(t.rows, answerId, accepted, feedback, reviewerId, clock);
    forall i | 0 <= i < |rows| ensures RowWellFormed(rows[i], t.nextId, q, u, clock) {
      assert RowWellFormed(t.rows[i], t.nextId, q, u, clock);
    }
  }
}
