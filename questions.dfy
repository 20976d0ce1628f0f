/** The question bank handlers, and the older answer handlers of the same
    controller that no route reaches: a current-question query, a submission
    without the assignment check and a review keyed by question id. */
module Questions {
  import opened Schema
  import opened JsValues
  import Team

  /** The guard `!question || !points` lets a request through only with a
      non-empty text and a truthy points field: a number other than 0, or any
      non-empty string (a multipart form sends every field as a string). */
  predicate AcceptsQuestionInput(text: Option<string>, points: Option<JsValue>)
  {
    text.Some? && text.value != "" && points.Some? && Truthy(points.value)
  }

  /** The number 0 is refused, but the form field "0" passes the guard and the
      INTEGER column stores it as 0; an empty field is refused. */
  lemma ZeroPointsRefusedOnlyAsNumber(text: string)
    requires text != ""
    ensures !AcceptsQuestionInput(Some(text), Some(JsNumber(0)))
    ensures AcceptsQuestionInput(Some(text), Some(JsString("0"))) && IntegerParameter(JsString("0")) == Some(0)
    ensures !AcceptsQuestionInput(Some(text), Some(JsString("")))
  {
    assert DecimalValue("0") == DecimalValue("") * 10 + 0;
  }

  /** A JSON true passes the guard, but the INTEGER column refuses it, so the insert
      fails; a JSON false is refused by the guard. */
  lemma TruePointsFailInColumn(text: string)
    requires text != ""
    ensures AcceptsQuestionInput(Some(text), Some(JsBool(true))) && IntegerParameter(JsBool(true)).None?
    ensures !AcceptsQuestionInput(Some(text), Some(JsBool(false)))
  {
    BooleanIsNotAnInteger(true);
  }

  /** requires_image || false */
  function RequiresImageOrDefault(requiresImage: Option<bool>): (b: bool)
    ensures b <==> requiresImage == Some(true)
  {
    match requiresImage
    case Some(v) => v
    case None => false
  }

  /** getAllQuestions: SELECT * FROM question_bank ORDER BY id DESC. */
  function AllQuestions(bank: seq<Question>): (r: seq<Question>)
    ensures multiset(r) == multiset(bank)
  {
    Reverse(bank)
  }

  /** The listing has every bank row exactly once, in strictly descending id order. */
  lemma AllQuestionsNewestFirst(bank: seq<Question>, nextId: nat)
    requires BankWellFormed(bank, nextId)
    ensures |AllQuestions(bank)| == |bank|
    ensures forall i :: 0 <= i < |bank| ==> AllQuestions(bank)[i] == bank[|bank| - 1 - i]
    ensures forall i, j :: 0 <= i < j < |bank| ==> AllQuestions(bank)[i].id > AllQuestions(bank)[j].id
  {
    var r := AllQuestions(bank);
    forall i, j | 0 <= i < j < |bank| ensures r[i].id > r[j].id {
      assert bank[|bank| - 1 - j].id < bank[|bank| - 1 - i].id;
    }
  }

  // ---------------------------------------------------------------------------
  // The unrouted getCurrentQuestion
  // ---------------------------------------------------------------------------

  /** This variant tests NOT EXISTS against the assignment's question_id rather
      than the joined bank row's id. */
  predicate IsPendingByAssignment(a: Assignment, bank: seq<Question>, rows: seq<AnswerRow>, userId: nat)
  {
    a.userId == userId && a.questionId in QuestionIds(bank) && !Team.Answered(rows, a.questionId)
  }

  function UnroutedCurrentQuestion(
    assignments: seq<Assignment>, bank: seq<Question>, tables: map<string, AnswerTable>,
    userId: nat, username: string): (r: Result<Team.Current>)
    ensures r.Err? <==> username !in tables
  {
    if username !in tables then Err(ServerError(MissingTable))
    else
      var rows := tables[username].rows;
      match Team.LowestPending(assignments, a => IsPendingByAssignment(a, bank, rows, userId))
      case None => Ok(Team.Completed)
      case Some(a) => Ok(Team.Pending(a.id, FindQuestion(bank, a.questionId).value))
  }

  /** Both getCurrentQuestion handlers answer alike in every state. */
  lemma CurrentQuestionVariantsAgree(
    assignments: seq<Assignment>, bank: seq<Question>, tables: map<string, AnswerTable>,
    userId: nat, username: string)
    ensures UnroutedCurrentQuestion(assignments, bank, tables, userId, username)
         == Team.CurrentQuestion(assignments, bank, tables, userId, username)
  {
    if username in tables {
      var rows := tables[username].rows;
      var p1 := a => Team.IsPending(a, bank, rows, userId);
      var p2 := a => IsPendingByAssignment(a, bank, rows, userId);
      forall a | a in assignments ensures p1(a) == p2(a) {
        if FindQuestion(bank, a.questionId).Some? {
          assert FindQuestion(bank, a.questionId).value.id == a.questionId;
        }
      }
      Team.LowestPendingSameFilter(assignments, p1, p2);
    }
  }

  // ---------------------------------------------------------------------------
  // The unrouted reviewAnswer: UPDATE ... SET is_accepted, admin_feedback WHERE question_id = $3
  // ---------------------------------------------------------------------------

  function SetVerdictByQuestion(rows: seq<AnswerRow>, questionId: int, accepted: bool, feedback: Option<string>)
    : (r: seq<AnswerRow>)
    ensures |r| == |rows|
    ensures forall i :: 0 <= i < |rows| && rows[i].questionId != questionId ==> r[i] == rows[i]
    ensures forall i :: 0 <= i < |rows| && rows[i].questionId == questionId ==>
              r[i] == rows[i].(isAccepted := accepted, adminFeedback := feedback)
  {
    if rows == [] then []
    else
      [if rows[0].questionId == questionId then rows[0].(isAccepted := accepted, adminFeedback := feedback) else rows[0]]
      + SetVerdictByQuestion(rows[1..], questionId, accepted, feedback)
  }

  /** This review never marks a row reviewed, never stamps it, keeps every row's
      identity, and gives every answer to the question the same verdict. */
  lemma VerdictByQuestionKeepsReviewState(rows: seq<AnswerRow>, questionId: int, accepted: bool, feedback: Option<string>)
    ensures var r := SetVerdictByQuestion(rows, questionId, accepted, feedback);
            forall i :: 0 <= i < |rows| ==>
              && r[i].isReviewed == rows[i].isReviewed
              && r[i].reviewedAt == rows[i].reviewedAt
              && r[i].reviewedBy == rows[i].reviewedBy
              && r[i].id == rows[i].id
              && r[i].questionId == rows[i].questionId
              && (rows[i].questionId == questionId ==> r[i].isAccepted == accepted)
  {
  }

  /** The verdict touches neither ids, question ids, stamps nor reviewers, so the
      table stays well formed. */
  lemma SetVerdictWellFormed(t: AnswerTable, q: set<nat>, u: set<nat>, clock: nat,
                             questionId: int, accepted: bool, feedback: Option<string>)
    requires AnswerTableWellFormed(t, q, u, clock)
    ensures AnswerTableWellFormed(t.(rows := SetVerdictByQuestion(t.rows, questionId, accepted, feedback)), q, u, clock)
  {
    var rows := SetVerdictByQuestion(t.rows, questionId, accepted, feedback);
    forall i | 0 <= i < |rows| ensures RowWellFormed(rows[i], t.nextId, q, u, clock) {
      assert RowWellFormed(t.rows[i], t.nextId, q, u, clock);
    }
  }
}
