/** The relational schema created at start-up: the users, the question bank,
    the question assignments and one answer table per participant, with the
    constraints, column defaults and the provisioning trigger that go with them. */
module Schema {

  datatype Option<T> = None | Some(value: T)

  /** Why a database statement failed (the handler answers with status 500). */
  datatype Cause =
    | MissingTable          // user_answers_<username> does not exist
    | DuplicateUsername     // UNIQUE (username) violated
    | InvalidRole           // CHECK (role IN ('admin', 'participant')) violated
    | UnknownQuestion       // FOREIGN KEY (question_id) violated
    | UnknownReviewer       // FOREIGN KEY (reviewed_by) violated
    | NotAnInteger          // the INTEGER column cannot read the points text
    | PointsOutOfRange      // points does not fit the INTEGER column
    | IdOutOfRange          // an id parameter does not fit the INTEGER column it is compared with
    | UnknownUser           // the user lookup returned no row

  /** The distinct failure kinds the handlers report. */
  datatype Failure =
    | QuestionIdRequired
    | QuestionInputRequired
    | AlreadyAssigned
    | NotAssigned
    | AnswerNotFound
    | InvalidCredentials
    | ServerError(cause: Cause)

  datatype Result<T> = Ok(value: T) | Err(failure: Failure)

  datatype Role = Admin | Participant

  /** An opaque password digest: only whether it was made from a given password is observable. */
  datatype PasswordHash = Hashed(secret: string)

  datatype User = User(id: nat, username: string, password: PasswordHash, role: Role)

  datatype Question = Question(id: nat, text: string, points: int, requiresImage: bool, imageUrl: Option<string>)

  datatype Assignment = Assignment(id: nat, userId: nat, questionId: nat)

  datatype AnswerRow = AnswerRow(
    id: nat,
    questionId: nat,
    textAnswer: Option<string>,
    imageAnswerUrl: Option<string>,
    submittedAt: nat,
    isReviewed: bool,
    isAccepted: bool,
    reviewedAt: Option<nat>,
    reviewedBy: Option<nat>,
    adminFeedback: Option<string>)

  /** One user_answers_<username> table: its rows and its own id sequence. */
  datatype AnswerTable = AnswerTable(rows: seq<AnswerRow>, nextId: nat)

  /** A SERIAL column hands out 1, 2, 3, ... */
  const FirstSerial: nat := 1

  const EmptyAnswerTable := AnswerTable([], FirstSerial)

  /** The smallest and largest values of a PostgreSQL INTEGER column. */
  const IntegerMin: int := -0x8000_0000
  const IntegerMax: int := 0x7fff_ffff

  /** The value fits an INTEGER column; a parameter outside this range is refused. */
  predicate FitsInteger(n: int)
  {
    IntegerMin <= n <= IntegerMax
  }

  /** The role column accepts exactly the two spellings of its CHECK constraint. */
  function ParseRole(s: string): (r: Option<Role>)
    ensures r == Some(Admin) <==> s == "admin"
    ensures r == Some(Participant) <==> s == "participant"
    ensures r.None? <==> s != "admin" && s != "participant"
  {
    if s == "admin" then Some(Admin)
    else if s == "participant" then Some(Participant)
    else None
  }

  /** A row as INSERT leaves it when only question_id, text_answer and
      image_answer_url are given: every other column takes its default. */
  function FreshAnswerRow(id: nat, questionId: nat, text: Option<string>, image: Option<string>, now: nat): (row: AnswerRow)
    ensures row.id == id && row.questionId == questionId
    ensures row.textAnswer == text && row.imageAnswerUrl == image && row.submittedAt == now
    ensures !row.isReviewed && !row.isAccepted
    ensures row.reviewedAt.None? && row.reviewedBy.None? && row.adminFeedback.None?
  {
    AnswerRow(id, questionId, text, image, now, false, false, None, None, None)
  }

  /** INSERT INTO user_answers_<username> (question_id, text_answer, image_answer_url):
      the table with one more row, numbered by the table's own sequence. */
  function InsertAnswer(t: AnswerTable, questionId: nat, text: Option<string>, image: Option<string>, now: nat): (r: AnswerTable)
    ensures |r.rows| == |t.rows| + 1 && r.rows[..|t.rows|] == t.rows
    ensures r.rows[|t.rows|] == FreshAnswerRow(t.nextId, questionId, text, image, now)
    ensures r.nextId == t.nextId + 1
  {
    AnswerTable(t.rows + [FreshAnswerRow(t.nextId, questionId, text, image, now)], t.nextId + 1)
  }

  /** Inserting a row stamped now, for a question of the bank, keeps a table well formed. */
  lemma InsertAnswerWellFormed(t: AnswerTable, questionIds: set<nat>, userIds: set<nat>, clock: nat,
                               questionId: nat, text: Option<string>, image: Option<string>)
    requires AnswerTableWellFormed(t, questionIds, userIds, clock)
    requires questionId in questionIds
    ensures AnswerTableWellFormed(InsertAnswer(t, questionId, text, image, clock), questionIds, userIds, clock)
    ensures |InsertAnswer(t, questionId, text, image, clock).rows| == |t.rows| + 1
  {
    var t' := InsertAnswer(t, questionId, text, image, clock);
    forall i | 0 <= i < |t'.rows| ensures RowWellFormed(t'.rows[i], t'.nextId, questionIds, userIds, clock) {
      if i < |t.rows| {
        assert RowWellFormed(t.rows[i], t.nextId, questionIds, userIds, clock);
      }
    }
  }

  /** Rows kept in ascending key order, listed with ORDER BY that key DESC. */
  function Reverse<T>(s: seq<T>): (r: seq<T>)
    ensures |r| == |s|
    ensures forall i :: 0 <= i < |s| ==> r[i] == s[|s| - 1 - i]
    ensures multiset(r) == multiset(s)
  {
    if s == [] then []
    else
      var r := Reverse(s[1..]) + [s[0]];
      assert s == [s[0]] + s[1..];
      r
  }

  function UserIds(users: seq<User>): set<nat> { set u | u in users :: u.id }

  function QuestionIds(bank: seq<Question>): set<nat> { set q | q in bank :: q.id }

  function ParticipantNames(users: seq<User>): set<string>
  {
    set u | u in users && u.role == Participant :: u.username
  }

  /** SELECT ... FROM users WHERE username = $1: the row with that name, if any. */
  function FindUserByName(users: seq<User>, name: string): (r: Option<User>)
    ensures r.Some? ==> r.value in users && r.value.username == name
    ensures r.None? <==> forall u :: u in users ==> u.username != name
  {
    if users == [] then None
    else if users[0].username == name then Some(users[0])
    else FindUserByName(users[1..], name)
  }

  /** The users row with the given id, if any. */
  function FindUserById(users: seq<User>, id: nat): (r: Option<User>)
    ensures r.Some? ==> r.value in users && r.value.id == id
    ensures r.None? <==> id !in UserIds(users)
  {
    if users == [] then None
    else if users[0].id == id then Some(users[0])
    else FindUserById(users[1..], id)
  }

  /** The question_bank row a join on question_bank.id = qid picks, if any. */
  function FindQuestion(bank: seq<Question>, qid: int): (r: Option<Question>)
    ensures r.Some? ==> r.value in bank && r.value.id == qid
    ensures r.None? <==> qid !in QuestionIds(bank)
  {
    if bank == [] then None
    else if bank[0].id == qid then Some(bank[0])
    else FindQuestion(bank[1..], qid)
  }

  /** SELECT COUNT(*) FROM question_assignments WHERE user_id = $1 */
  function CountAssignments(assignments: seq<Assignment>, userId: nat): (n: nat)
    ensures n <= |assignments|
    ensures n == 0 <==> forall a :: a in assignments ==> a.userId != userId
  {
    if assignments == [] then 0
    else (if assignments[0].userId == userId then 1 else 0) + CountAssignments(assignments[1..], userId)
  }

  // ---------------------------------------------------------------------------
  // Constraints of the tables, as invariants of every reachable state
  // ---------------------------------------------------------------------------

  /** users: SERIAL primary key, UNIQUE username; the role is typed. */
  predicate UsersWellFormed(users: seq<User>, nextId: nat)
  {
    && (forall i :: 0 <= i < |users| ==> users[i].id < nextId)
    && (forall i, j :: 0 <= i < j < |users| ==> users[i].id < users[j].id)
    && (forall i, j :: 0 <= i < j < |users| ==> users[i].username != users[j].username)
  }

  /** question_bank: SERIAL primary key, points within the INTEGER range. */
  predicate BankWellFormed(bank: seq<Question>, nextId: nat)
  {
    && (forall i :: 0 <= i < |bank| ==> bank[i].id < nextId && FitsInteger(bank[i].points))
    && (forall i, j :: 0 <= i < j < |bank| ==> bank[i].id < bank[j].id)
  }

  /** No (user_id, question_id) pair occurs twice. */
  predicate PairsUnique(assignments: seq<Assignment>)
  {
    forall i, j :: 0 <= i < j < |assignments| ==>
      !(assignments[i].userId == assignments[j].userId && assignments[i].questionId == assignments[j].questionId)
  }

  /** question_assignments: SERIAL primary key, both foreign keys, UNIQUE (user_id, question_id). */
  predicate AssignmentsWellFormed(assignments: seq<Assignment>, nextId: nat, userIds: set<nat>, questionIds: set<nat>)
  {
    && (forall i :: 0 <= i < |assignments| ==>
          assignments[i].id < nextId && assignments[i].userId in userIds && assignments[i].questionId in questionIds)
    && (forall i, j :: 0 <= i < j < |assignments| ==> assignments[i].id < assignments[j].id)
    && PairsUnique(assignments)
  }

  predicate RowWellFormed(row: AnswerRow, nextId: nat, questionIds: set<nat>, userIds: set<nat>, clock: nat)
  {
    && row.id < nextId
    && row.questionId in questionIds
    && row.submittedAt <= clock
    && (row.reviewedBy.Some? ==> row.reviewedBy.value in userIds)
    && (row.reviewedAt.Some? ==> row.reviewedAt.value <= clock)
  }

  /** An answer table: SERIAL primary key, both foreign keys, and rows stamped
      in insertion order by a clock that never goes back. */
  predicate AnswerTableWellFormed(t: AnswerTable, questionIds: set<nat>, userIds: set<nat>, clock: nat)
  {
    && (forall i :: 0 <= i < |t.rows| ==> RowWellFormed(t.rows[i], t.nextId, questionIds, userIds, clock))
    && (forall i, j :: 0 <= i < j < |t.rows| ==>
          t.rows[i].id < t.rows[j].id && t.rows[i].submittedAt <= t.rows[j].submittedAt)
  }

  /** The whole database: the four kinds of table and the next value of each SERIAL
      sequence; `clock` is the current CURRENT_TIMESTAMP. */
  datatype Database = Database(
    users: seq<User>,
    bank: seq<Question>,
    assignments: seq<Assignment>,
    tables: map<string, AnswerTable>,
    nextUserId: nat,
    nextQuestionId: nat,
    nextAssignmentId: nat,
    clock: nat)

  /** Every constraint of the database at once. The answer tables are exactly
      those of the participants: the trigger creates one per participant and
      nothing else creates or drops one. */
  predicate Consistent(db: Database)
  {
    && UsersWellFormed(db.users, db.nextUserId)
    && BankWellFormed(db.bank, db.nextQuestionId)
    && AssignmentsWellFormed(db.assignments, db.nextAssignmentId, UserIds(db.users), QuestionIds(db.bank))
    && db.tables.Keys == ParticipantNames(db.users)
    && (forall name :: name in db.tables ==>
          AnswerTableWellFormed(db.tables[name], QuestionIds(db.bank), UserIds(db.users), db.clock))
  }

  /** In a consistent database a user name identifies one user, every assignment
      refers to an existing user and question, and the lookup by name finds the
      user with that name. */
  lemma ConsistentKeysIdentifyRows(db: Database)
    requires Consistent(db)
    ensures forall u, v :: u in db.users && v in db.users && u.username == v.username ==> u == v
    ensures forall a :: a in db.assignments ==> a.userId in UserIds(db.users) && a.questionId in QuestionIds(db.bank)
    ensures forall u :: u in db.users ==> FindUserByName(db.users, u.username) == Some(u)
  {
    forall u, v | u in db.users && v in db.users && u.username == v.username ensures u == v {
      var i :| 0 <= i < |db.users| && db.users[i] == u;
      var j :| 0 <= j < |db.users| && db.users[j] == v;
      assert i == j;
    }
    forall a | a in db.assignments ensures a.userId in UserIds(db.users) && a.questionId in QuestionIds(db.bank) {
      var i :| 0 <= i < |db.assignments| && db.assignments[i] == a;
    }
  }

  lemma TableWellFormedMonotone(t: AnswerTable, q: set<nat>, q': set<nat>, u: set<nat>, u': set<nat>, c: nat, c': nat)
    requires AnswerTableWellFormed(t, q, u, c)
    requires q <= q' && u <= u' && c <= c'
    ensures AnswerTableWellFormed(t, q', u', c')
  {
  }

  /** Ids handed out by a SERIAL column are distinct, so the bank has as many ids as rows. */
  lemma {:induction false} QuestionIdsCount(bank: seq<Question>, nextId: nat)
    requires BankWellFormed(bank, nextId)
    ensures |QuestionIds(bank)| == |bank|
  {
    if bank != [] {
      var last := bank[|bank| - 1];
      var init := bank[..|bank| - 1];
      assert forall i :: 0 <= i < |init| ==> init[i] == bank[i];
      QuestionIdsCount(init, nextId);
      assert bank == init + [last];
      forall q | q in init ensures q.id != last.id {
        var k :| 0 <= k < |init| && init[k] == q;
      }
      FreshIdCounts(init, last);
    }
  }

  /** Appending a question whose id no earlier question has adds one id. */
  lemma FreshIdCounts(init: seq<Question>, last: Question)
    requires forall q :: q in init ==> q.id != last.id
    ensures |QuestionIds(init + [last])| == |QuestionIds(init)| + 1
  {
    QuestionAppended(init, last);
    assert last.id !in QuestionIds(init);
  }

  /** The primary key makes the join on question_bank.id pick exactly the row with that id. */
  lemma {:induction false} FindQuestionUnique(bank: seq<Question>, nextId: nat, q: Question)
    requires BankWellFormed(bank, nextId)
    requires q in bank
    ensures FindQuestion(bank, q.id) == Some(q)
  {
    if bank[0] != q {
      var k :| 0 <= k < |bank| && bank[k] == q;
      assert k > 0;
      assert bank[0].id < bank[k].id;
      assert bank[1..][k - 1] == q;
      FindQuestionUnique(bank[1..], nextId, q);
    }
  }

  lemma UserAppended(users: seq<User>, u: User)
    ensures UserIds(users + [u]) == UserIds(users) + {u.id}
    ensures ParticipantNames(users + [u]) ==
            ParticipantNames(users) + (if u.role == Participant then {u.username} else {})
  {
    assert forall v :: v in users + [u] <==> v in users || v == u;
  }

  lemma QuestionAppended(bank: seq<Question>, q: Question)
    ensures QuestionIds(bank + [q]) == QuestionIds(bank) + {q.id}
  {
    assert forall v :: v in bank + [q] <==> v in bank || v == q;
  }

  // ---------------------------------------------------------------------------
  // Provisioning: create_user_answers_table and user_creation_trigger
  // ---------------------------------------------------------------------------

  /** CREATE TABLE IF NOT EXISTS user_answers_<username>: the tables after the call. */
  function Provisioned(tables: map<string, AnswerTable>, username: string): (r: map<string, AnswerTable>)
    ensures r.Keys == tables.Keys + {username}
    ensures forall name :: name in tables ==> r[name] == tables[name]
    ensures username !in tables ==> r[username] == EmptyAnswerTable
  {
    if username in tables then tables else tables[username := EmptyAnswerTable]
  }

  /** Provisioning an existing table changes nothing, so running it twice is running it once. */
  lemma ProvisionedIdempotent(tables: map<string, AnswerTable>, username: string)
    ensures username in tables ==> Provisioned(tables, username) == tables
    ensures Provisioned(Provisioned(tables, username), username) == Provisioned(tables, username)
  {
  }

  /** The AFTER INSERT trigger on users: only a participant gets a table. */
  function AfterUserInsert(tables: map<string, AnswerTable>, u: User): (r: map<string, AnswerTable>)
    ensures u.role == Participant ==> r == Provisioned(tables, u.username)
    ensures u.role == Admin ==> r == tables
  {
    if u.role == Participant then Provisioned(tables, u.username) else tables
  }

  /** Inserting a user whose name has no table yet provisions a table for it iff it is a participant. */
  lemma TriggerProvisionsParticipantsOnly(tables: map<string, AnswerTable>, u: User)
    requires u.username !in tables
    ensures u.username in AfterUserInsert(tables, u) <==> u.role == Participant
    ensures u.role == Participant ==> AfterUserInsert(tables, u)[u.username] == EmptyAnswerTable
    ensures forall name :: name in tables ==> name in AfterUserInsert(tables, u) && AfterUserInsert(tables, u)[name] == tables[name]
  {
  }
}
