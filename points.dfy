/** Scoring over one participant's answer table: how many answers were
    accepted and how many points the questions behind them are worth. */
module Points {
  import opened Schema

  /** What one answer row adds to SUM(qb.points) over the join with the bank:
      the points of its question, or nothing when no bank row joins. */
  function QuestionPoints(bank: seq<Question>, qid: nat): (p: int)
    ensures qid !in QuestionIds(bank) ==> p == 0
  {
    match FindQuestion(bank, qid)
    case None => 0
    case Some(q) => q.points
  }

  /** COALESCE(SUM(qb.points), 0) over the rows WHERE is_accepted = true. */
  function AcceptedPoints(rows: seq<AnswerRow>, bank: seq<Question>): (sum: int)
    ensures (forall q :: q in bank ==> 0 <= q.points) ==> 0 <= sum
    ensures (forall r :: r in rows ==> !r.isAccepted) ==> sum == 0
  {
    if rows == [] then 0
    else (if rows[0].isAccepted then QuestionPoints(bank, rows[0].questionId) else 0) + AcceptedPoints(rows[1..], bank)
  }

  /** COUNT(*) over the rows WHERE is_accepted = true (no join with the bank). */
  function AcceptedCount(rows: seq<AnswerRow>): (n: nat)
    ensures n <= |rows|
    ensures n == 0 <==> forall r :: r in rows ==> !r.isAccepted
  {
    if rows == [] then 0
    else (if rows[0].isAccepted then 1 else 0) + AcceptedCount(rows[1..])
  }

  /** calculateTeamPoints(username): the points of the participant's accepted
      answers; a failing query (no such table) yields 0 instead of an error. */
  function CalculateTeamPoints(tables: map<string, AnswerTable>, bank: seq<Question>, username: string): (points: int)
    ensures username !in tables ==> points == 0
    ensures username in tables ==> points == AcceptedPoints(tables[username].rows, bank)
  {
    if username in tables then AcceptedPoints(tables[username].rows, bank) else 0
  }

  /** The sum splits over any division of the table into two parts. */
  lemma {:induction false} AcceptedPointsAppend(a: seq<AnswerRow>, b: seq<AnswerRow>, bank: seq<Question>)
    ensures AcceptedPoints(a + b, bank) == AcceptedPoints(a, bank) + AcceptedPoints(b, bank)
  {
    if a == [] {
      assert a + b == b;
    } else {
      assert (a + b)[1..] == a[1..] + b;
      AcceptedPointsAppend(a[1..], b, bank);
    }
  }

  /** So does the count. */
  lemma {:induction false} AcceptedCountAppend(a: seq<AnswerRow>, b: seq<AnswerRow>)
    ensures AcceptedCount(a + b) == AcceptedCount(a) + AcceptedCount(b)
  {
    if a == [] {
      assert a + b == b;
    } else {
      assert (a + b)[1..] == a[1..] + b;
      AcceptedCountAppend(a[1..], b);
    }
  }

  /** A table without accepted answers scores 0 points and 0 solved questions. */
  lemma {:induction false} NoAcceptedNoPoints(rows: seq<AnswerRow>, bank: seq<Question>)
    requires forall r :: r in rows ==> !r.isAccepted
    ensures AcceptedPoints(rows, bank) == 0
    ensures AcceptedCount(rows) == 0
  {
    if rows != [] {
      assert rows[0] in rows;
      NoAcceptedNoPoints(rows[1..], bank);
    }
  }

  /** A rejected or unreviewed answer contributes nothing, wherever it sits. */
  lemma UnacceptedContributeNothing(before: seq<AnswerRow>, r: AnswerRow, after: seq<AnswerRow>, bank: seq<Question>)
    requires !r.isAccepted
    ensures AcceptedPoints(before + [r] + after, bank) == AcceptedPoints(before + after, bank)
    ensures AcceptedCount(before + [r] + after) == AcceptedCount(before + after)
  {
    AcceptedPointsAppend(before + [r], after, bank);
    AcceptedPointsAppend(before, [r], bank);
    AcceptedPointsAppend(before, after, bank);
    AcceptedCountAppend(before + [r], after);
    AcceptedCountAppend(before, [r]);
    AcceptedCountAppend(before, after);
  }

  /** An accepted answer adds the points of its question and one solved question. */
  lemma AcceptedContributesItsPoints(before: seq<AnswerRow>, r: AnswerRow, after: seq<AnswerRow>, bank: seq<Question>)
    requires r.isAccepted
    ensures AcceptedPoints(before + [r] + after, bank) == AcceptedPoints(before + after, bank) + QuestionPoints(bank, r.questionId)
    ensures AcceptedCount(before + [r] + after) == AcceptedCount(before + after) + 1
  {
    AcceptedPointsAppend(before + [r], after, bank);
    AcceptedPointsAppend(before, [r], bank);
    AcceptedPointsAppend(before, after, bank);
    AcceptedCountAppend(before + [r], after);
    AcceptedCountAppend(before, [r]);
    AcceptedCountAppend(before, after);
  }

  /** With unique bank ids the joined question is the one with the row's id. */
  lemma QuestionPointsOfBankRow(bank: seq<Question>, nextId: nat, q: Question)
    requires BankWellFormed(bank, nextId)
    requires q in bank
    ensures QuestionPoints(bank, q.id) == q.points
  {
    FindQuestionUnique(bank, nextId, q);
  }
}
