# Treasure hunt quiz store

A Dafny model of the data logic of a treasure-hunt quiz backend. An admin fills a
question bank. Each participant is dealt up to ten random questions and answers
them one at a time, each answer going into the participant's own answer table.
Admins review the answers, and the leaderboard ranks participants by the points
of their accepted answers.

The database is the class `Store.QuizDb`. Its fields are:

- the `users` table;
- the `question_bank` table;
- the `question_assignments` table;
- a map from user name to that user's `user_answers_<name>` table;
- the next value of every SERIAL sequence;
- a clock standing for `CURRENT_TIMESTAMP`.

Its invariant, `Valid()`, is `Schema.Consistent`. It collects these constraints
of the schema:

- primary keys in insertion order;
- unique user names;
- unique (user, question) assignment pairs;
- every foreign key;
- question points within the INTEGER range;
- answer rows stamped in order;
- exactly one answer table per participant (the trigger's doing).

Every handler that writes is a method of `QuizDb`. Each one keeps `Valid()` and
states its whole new state. On every failure it states that nothing changed.
The read-only handlers are functions over table values: the current question,
the answer listings, the team list, the results and the points calculator.

Modules:

- `Schema`: rows, tables, constraints, column defaults, the table-provisioning
  function and its trigger.
- `JsValues`: the values that cross between JavaScript and PostgreSQL. These are
  request fields that arrive as numbers, strings or JSON booleans, and the driver's decimal
  strings for `COUNT(*)` and `SUM`. The module also models JavaScript's `===`,
  `>` and `!` on them, and how an INTEGER column reads a text parameter.
- `Auth`: the opaque password digest, the session token, and the login's check
  of the assignment count.
- `Points`: `calculateTeamPoints` and the accepted-answer count and sum.
- `Team`: `createTeam`'s count check, the current question, the answer
  listings and the review update.
- `Questions`: the question bank reads, and the controller's three unrouted
  answer handlers.
- `Leaderboard`: `getTeams` and `getTeamResults` with their ranking sort.
- `Store`: the database object and every handler that writes.

The model follows the code, including where it is lax:

- Nothing prevents a second answer to the same question.
- User names are interpolated unchecked; no sanitizer is modelled.
- Of numbers, strings and booleans, a question's points are refused only when
  missing, the number 0, the empty string or `false`. A form field holding the
  text "0" passes the check and is stored as 0. JSON `true` passes the check,
  but the INTEGER column refuses it, so the insert fails. Text the column cannot
  read fails in the database, and so does a value outside the INTEGER range.
  Negative values are stored.
- A bank with fewer than ten questions deals all of them.
- An empty or missing answer text is accepted and stored as NULL by the routed submit; the unrouted submit stores the text as given.
- Registration and question dealing are separate statements, not one
  transaction.

## Model

| member | source | states |
|---|---|---|
| Schema.ParseRole | src/db/init.js:11 | the role column accepts exactly "admin" and "participant" |
| Schema.ConsistentKeysIdentifyRows | src/db/init.js:7-32 | in a consistent database a user name identifies one user, the lookup by a user's name finds that user, and every assignment refers to an existing user and question |
| Schema.FreshAnswerRow | src/db/init.js:40-49 | a new answer row is unreviewed and unaccepted, with no review time, reviewer or feedback, and is stamped now |
| Schema.InsertAnswer | src/controllers/teamController.js:229-234 | the table gains exactly one row after all the old ones, the fresh row with the table's next id, and the sequence advances by one |
| Schema.InsertAnswerWellFormed | src/db/init.js:39-50 | inserting an answer to a bank question, stamped now, keeps the table's key, foreign-key and time-order constraints and adds exactly one row |
| Schema.FindUserByName | src/controllers/userController.js:49-52 | the lookup by name returns the user with that name, and none exactly when no user has it |
| Schema.FindUserById | src/controllers/teamController.js:43 | the join on users.id finds a user iff the id is a user id |
| Schema.FindQuestion | src/controllers/teamController.js:42 | the join on question_bank.id finds a row with that id iff the id is in the bank |
| Schema.CountAssignments | src/controllers/userController.js:85-88 | the count is at most the table size, and 0 iff no assignment belongs to the user |
| Schema.QuestionIdsCount | src/db/init.js:16 | with SERIAL keys the bank has as many distinct ids as rows |
| Schema.FindQuestionUnique | src/db/init.js:16 | with the primary key, the join on an id picks exactly the row with that id |
| Schema.Provisioned | src/db/init.js:35-53 | provisioning adds the name's table, keeps every existing table and creates an empty one only when it was missing |
| Schema.ProvisionedIdempotent | src/db/init.js:39 | provisioning an existing table changes nothing, so doing it twice is doing it once |
| Schema.AfterUserInsert | src/db/init.js:56-69 | the trigger provisions a table for a participant and does nothing for an admin |
| Schema.TriggerProvisionsParticipantsOnly | src/db/init.js:59-61 | after inserting a user with a fresh name, a table exists for it iff it is a participant; it starts empty and no other table changes |
| JsValues.Decimal | src/controllers/teamController.js:114 | the decimal text of a count is non-empty and made of digits only |
| JsValues.DecimalRoundTrip | src/controllers/teamController.js:118 | reading back the decimal text of a count gives the count |
| JsValues.IntegerText | src/controllers/questionController.js:16-19 | the INTEGER column reads a string of digits as its decimal value and refuses the empty string |
| JsValues.NumberAndFormFieldAgree | src/controllers/questionController.js:16-19 | a JSON number and the form-field text of the same integer store the same value, that integer |
| JsValues.BooleanIsNotAnInteger | src/controllers/questionController.js:16-19 | the INTEGER column refuses a boolean parameter, whichever its value |
| JsValues.IntegerTextRoundTrip | src/controllers/questionController.js:16-19 | the signed decimal text of every integer reads back as that integer |
| JsValues.NegativeText | src/controllers/questionController.js:16-19 | a minus sign before digits reads as the negated value |
| Team.CreateTeamCheckCoerces | src/controllers/teamController.js:113-118 | `count > 0` on the count's string holds exactly when the count is positive |
| Auth.LoginNeverAssignsAsWritten | src/controllers/userController.js:85-90 | the strict comparison of the count's string with the number 0 never holds, not even for a count of 0 |
| Points.QuestionPoints | src/utils/pointsCalculator.js:8 | an answer whose question is not in the bank joins nothing and adds 0 |
| Points.AcceptedPoints | src/utils/pointsCalculator.js:5-10 | the sum of the accepted answers' points is 0 when no answer is accepted, and never negative when no question has negative points |
| Points.AcceptedCount | src/controllers/teamController.js:286-288 | the solved count is at most the number of rows, and 0 iff no row is accepted |
| Points.CalculateTeamPoints | src/utils/pointsCalculator.js:3-18 | the points of the accepted answers; a failing query (missing table) yields 0, not an error |
| Points.AcceptedPointsAppend | src/utils/pointsCalculator.js:6-9 | the point sum splits over any division of the table |
| Points.AcceptedCountAppend | src/controllers/teamController.js:286-288 | the solved count splits over any division of the table |
| Points.NoAcceptedNoPoints | src/utils/pointsCalculator.js:6-13 | a table without accepted answers scores 0 points and 0 solved questions |
| Points.UnacceptedContributeNothing | src/utils/pointsCalculator.js:9 | a rejected or unreviewed answer changes neither the points nor the count, wherever it sits |
| Points.AcceptedContributesItsPoints | src/utils/pointsCalculator.js:6-9 | an accepted answer adds its question's points and one solved question |
| Points.QuestionPointsOfBankRow | src/utils/pointsCalculator.js:8 | an answer to a bank question is worth that question's points |
| Team.LowestPending | src/controllers/teamController.js:174-175 | the pick is a kept assignment with the smallest id, and there is none iff the filter keeps nothing |
| Team.CurrentQuestion | src/controllers/teamController.js:159-197 | the query fails iff the user has no answer table |
| Team.CurrentQuestionIsLowestUnanswered | src/controllers/teamController.js:164-177 | the question offered is in the bank and unanswered, and comes from the user's lowest-id assignment with an unanswered bank question |
| Team.CompletedIffAllAnswered | src/controllers/teamController.js:169-184 | completed is reported iff every question assigned to the user has an answer row |
| Team.AnsweringRetiresQuestion | src/controllers/teamController.js:169-173 | an answer row retires its question, and every other pending assignment stays pending |
| Team.AssignedToByLookup | src/controllers/teamController.js:214-219 | with unique user names, the assignment check holds exactly when the user with that name exists and has an assignment for the question |
| Team.TextOrNull | src/controllers/teamController.js:233 | an empty or missing answer text is stored as NULL, any other text as given |
| Team.ReviewerName | src/controllers/teamController.js:43 | the left join yields a name iff the answer has a reviewer id that is a user id, and then it is that user's name |
| Team.JoinAnswers | src/controllers/teamController.js:34-43 | every view comes from a row of the table and carries the text, points and image flag of the bank question with the row's question id and the reviewer's name; when every answer's question is in the bank, the join keeps every row, in order |
| Team.JoinAnswersKeepsJoinableRows | src/controllers/teamController.js:41-42 | every answer whose question is in the bank appears in the join |
| Team.TeamAnswers | src/controllers/teamController.js:29-59 | the listing fails iff the user has no answer table |
| Team.TeamAnswersNewestFirst | src/controllers/teamController.js:44 | in a well-formed table the listing holds every answer once, newest first, with submission times non-increasing |
| Team.JoinParticipantAnswers | src/controllers/teamController.js:253-256 | the join has at most as many rows as the table, and every view comes from a row of the table and carries the text and points of the bank question with the row's question id |
| Team.ParticipantAnswers | src/controllers/teamController.js:249-271 | the listing fails iff the user has no answer table |
| Team.JoinsAgree | src/controllers/teamController.js:253-257 | both joins keep the same rows with the same question text and points |
| Team.ListingsAgree | src/controllers/teamController.js:253-257 | the admin and participant listings fail together, and otherwise list the same answers in the same order |
| Team.Reviewed | src/controllers/teamController.js:68-73 | a reviewed row is marked reviewed and carries the verdict, the feedback, the time and the reviewer; its identity and content are unchanged |
| Team.ApplyReview | src/controllers/teamController.js:66-76 | rows with the answer id get the review, and every other row is unchanged |
| Team.ReviewTarget | src/controllers/teamController.js:85-90 | the returned row has the answer id, and there is none iff no row has it |
| Team.ReviewOfUnknownIdChangesNothing | src/controllers/teamController.js:74-90 | an id not in the table leaves it exactly as it was |
| Team.ReviewChangesOneRow | src/controllers/teamController.js:74 | with unique ids the update changes exactly the target row |
| Team.ApplyReviewWellFormed | src/controllers/teamController.js:72-73 | a review by a known user, stamped now, keeps the table well formed |
| Questions.ZeroPointsRefusedOnlyAsNumber | src/controllers/questionController.js:9 | `!points` refuses the number 0 and the empty string, but lets the text "0" through, which the INTEGER column stores as 0 |
| Questions.TruePointsFailInColumn | src/controllers/questionController.js:9-19 | JSON `true` as points passes `!points` but the INTEGER column refuses it; JSON `false` is refused by the check |
| Questions.RequiresImageOrDefault | src/controllers/questionController.js:18 | requires_image is true only when given as true |
| Questions.AllQuestions | src/controllers/questionController.js:34-51 | the listing is a permutation of the bank |
| Questions.AllQuestionsNewestFirst | src/controllers/questionController.js:37 | the listing holds every bank row once, in strictly descending id order |
| Questions.UnroutedCurrentQuestion | src/controllers/questionController.js:53-89 | the unrouted query fails iff the user has no answer table |
| Questions.CurrentQuestionVariantsAgree | src/controllers/questionController.js:57-69 | the unrouted query answers exactly like the routed one in every state |
| Questions.SetVerdictByQuestion | src/controllers/questionController.js:123-128 | every row with the question id gets the verdict and feedback, and every other row is unchanged |
| Questions.VerdictByQuestionKeepsReviewState | src/controllers/questionController.js:123-128 | this review never marks a row reviewed, stamps it or names a reviewer, and keeps every row's identity |
| Questions.SetVerdictWellFormed | src/controllers/questionController.js:125 | the verdict update keeps the table well formed |
| Leaderboard.Participants | src/controllers/teamController.js:276-277 | exactly the participant rows, each as often as the users table holds it, and no other row |
| Leaderboard.ResultsFor | src/controllers/teamController.js:280-302 | the results succeed iff every participant has an answer table; each row then describes its participant's solved count and points |
| Leaderboard.Compare | src/controllers/teamController.js:305-310 | the comparator is negative iff the first entry has more points, or as many points and more solved questions; it is 0 iff both are equal |
| Leaderboard.RanksBefore | src/controllers/teamController.js:305-310 | an entry ranks before another iff the comparator does not put it after |
| Leaderboard.InsertByRank | src/controllers/teamController.js:305-310 | inserting into a ranked list keeps it ranked and adds exactly that entry |
| Leaderboard.SortByRank | src/controllers/teamController.js:305-310 | the output is ranked by points, then solved questions, both descending, and is a permutation of the input |
| Leaderboard.TeamResults | src/controllers/teamController.js:273-310 | the results fail iff some participant has no answer table; otherwise they are ranked, one row per participant |
| Leaderboard.TeamResultsCorrect | src/controllers/teamController.js:273-310 | with every table present: one ranked row per participant; every row describes a participant with the accepted count and a total equal to calculateTeamPoints, and every participant has a row describing it |
| Leaderboard.PermutedResultsDescribe | src/controllers/teamController.js:300-310 | sorting the per-participant rows keeps a describing row for every participant and a described participant for every row |
| Leaderboard.Teams | src/controllers/teamController.js:4-13 | one entry per participant |
| Leaderboard.TeamsAgreeWithResults | src/controllers/teamController.js:281-298 | getTeams' calculated points equal getTeamResults' total_points, participant by participant |
| Leaderboard.ExampleIsConsistent | src/db/init.js:7-51 | the example database, with bob's answers reviewed by the admin alice, is a consistent state: it meets every constraint `Schema.Consistent` collects |
| Leaderboard.ExampleLeaderboard | src/controllers/teamController.js:273-310 | in the example, one accepted 5-point answer and one rejected 3-point answer give bob 1 solved and 5 points, and the admin gets no row |
| Store.DrawQuestions | src/controllers/teamController.js:134-136 | the draw returns min(10, bank size) distinct bank question ids |
| Store.DealingKeepsAssignmentsWellFormed | src/db/init.js:24-32 | dealing drawn questions to a user who has none keeps keys, foreign keys and unique pairs, and gives the user exactly that many assignments |
| Store.CountOfDealtBatch | src/controllers/teamController.js:139-144 | after dealing a batch to a user with no assignment, the user's count is the batch size |
| Store.InsertingUserKeepsConsistent | src/controllers/userController.js:11-14 | inserting a user under a fresh name with the next id keeps every constraint, and the new user has no assignment |
| Store.NextUserHasNoAssignments | src/db/init.js:29 | no assignment refers to the next user id |
| Store.QuizDb.constructor | src/db/init.js:3-70 | the freshly initialised database is empty and consistent |
| Store.QuizDb.ProvisionAnswerTable | src/db/init.js:35-53 | create_user_answers_table: the tables become Provisioned(tables, name), and nothing else changes |
| Store.QuizDb.AssignQuestions | src/controllers/teamController.js:133-144 | appends one assignment per drawn question with consecutive ids, keeps the invariant, and leaves the user with min(10, bank size) assignments |
| Store.QuizDb.CreateTeam | src/controllers/teamController.js:108-157 | fails as already assigned when the user has an assignment, or as a server error when the name is unknown, changing nothing; otherwise deals a batch |
| Store.QuizDb.Register | src/controllers/userController.js:5-42 | an invalid role or a taken name fails with nothing changed; otherwise the user is appended, the trigger runs, a participant gets min(10, bank size) assignments and an admin none |
| Store.QuizDb.InsertUserRow | src/controllers/userController.js:11-14 | the user row is appended and the trigger's table is provisioned, keeping the invariant |
| Store.QuizDb.Login | src/controllers/userController.js:44-122 | an unknown name or wrong password fails with invalid credentials and changes nothing; otherwise a token with the user's claims, and a batch of questions only for a participant with none |
| Store.QuizDb.SubmitAnswer | src/controllers/teamController.js:198-247 | no question id fails as required; an id outside the INTEGER range fails in the database; an id not assigned to the user fails as not assigned; in each case nothing is written; otherwise exactly one fresh row is appended to the user's table and nothing else changes |
| Store.QuizDb.ReviewAnswer | src/controllers/teamController.js:61-104 | a missing table fails in the database; an answer id outside the INTEGER range fails in the database; an unknown answer id fails as not found; in each case nothing changes; otherwise only that row is reviewed, stamped now and returned |
| Store.QuizDb.CreateQuestion | src/controllers/questionController.js:4-32 | missing or empty text, or points that are missing, the number 0 or the empty string, fail with nothing inserted; points the INTEGER column cannot read or outside its range fail in the database; otherwise one row is appended with the points as the column reads them and requires_image defaulting to false, and is returned |
| Store.QuizDb.SubmitAnswerUnchecked | src/controllers/questionController.js:91-116 | the unrouted submission has no assignment check: it fails only on a missing table, a question id outside the INTEGER range or a question outside the bank, and otherwise appends the text as given |
| Store.QuizDb.ReviewByQuestion | src/controllers/questionController.js:118-141 | the unrouted review fails only on a missing table or a question id outside the INTEGER range, with nothing changed; it never reports not found, and sets the verdict on every answer to the question |

## Left out

- HTTP plumbing is not modelled: request parsing, status codes, response bodies, route wiring and the server start-up. The handlers' outcomes become the `Failure` kinds.
- Which handlers are reachable is not modelled. `createTeam` is imported by the team routes but given no route, and the route parameter makes `!questionId` unreachable there; both are modelled as written.
- bcrypt and JWT are opaque: a token carries the user's id, name and role. The secret, the 24-hour expiry and the cost factor are left out.
- Auth.Matches: compares the whole password. bcrypt reads only the first 72 bytes of a password, so two passwords that share those bytes match the same digest; the model does not capture this.
- File uploads are reduced to an optional image URL.
- Store.DrawQuestions: states which sets of ids `ORDER BY RANDOM() LIMIT 10` may return, not how likely each one is.
- The parallel `Promise.all` fan-outs are modelled as sequential maps.
- Races between a check and the insert that follows it are left out.
- A registration whose question dealing fails half way is left out. The model deals atomically.
- A failed INSERT still consumes a SERIAL value in the database. The model advances a sequence only on success, so only id values differ, never the constraints.
- Table names are built by interpolating the user name into the SQL text. The model keys the answer tables by name, so injection is left out. So is the identifier handling of names longer than 63 bytes. So is case folding: the unquoted `user_answers_${username}` is folded to lower case by PostgreSQL, so `BOB` reaches the table of `bob`. The model looks a table up by the exact name, so for a name with upper-case letters the listings, the review and the current question fail with a missing table where the database would use the lower-case name's table.
- Store.QuizDb.Register: succeeds for every fresh name. In the database, `format('user_answers_%I')` quotes a name that needs it (upper-case letters, a hyphen, a keyword). The CREATE TABLE text then has a syntax error, the trigger fails, and the whole registration rolls back. The model does not capture that failure.
- Timestamps are a natural-number clock that never goes back; `AdvanceClock` moves it between requests.
- `ORDER BY submitted_at DESC` leaves ties open. The listings break ties by insertion order, which is one of the allowed orders.
- The driver returns `SUM` and `COUNT` as decimal strings. Results and points are modelled as their integer values, which the comparator's subtraction coerces back to. Only the two count checks in `createTeam` and `loginUser` are modelled at the string level.
- Leaderboard.Participants: keeps the users table's order. The participants query has no ORDER BY, so the database may return the rows in any order; the model fixes one. `getTeams` lists participants in this order too.
- Leaderboard.SortByRank: proves ranked order and permutation, but not the stability with which `Array.prototype.sort` orders equal entries.
- Store.QuizDb.CreateQuestion: request fields are integral numbers, strings or booleans. JSON `null`, arrays and objects as points are not modelled, and neither are fractional numbers such as `2.5`, which pass `!points` and which the INTEGER column then refuses. Neither is `requires_image` sent as a form text field, which the model reads as a boolean. The INTEGER column's reading of text is modelled for plain signed decimals only; the surrounding whitespace and the other numeral forms PostgreSQL also accepts are left out.
- `is_accepted` sent as undefined is stored as NULL; the model's verdict is always a boolean.
- VARCHAR length limits are left out. Path and body ids are integers in the model: an id outside the INTEGER range fails in the database (`IdOutOfRange`), but path parameters that are not numerals at all, which also fail in the database, are left out.
- SERIAL sequences and ids are unbounded naturals. The sequences' exhaustion at 2^31-1 (src/db/init.js:8,16,25,40), after which the next INSERT fails in registration, question creation, answer submission and question assignment, is not modelled.
- Console logging and error-message texts are left out.

## Findings

| source | as written | input that shows it | evidently intended | confidence | as-written member | corrected member |
|---|---|---|---|---|---|---|
| src/controllers/userController.js:90 | `assignedQuestions.rows[0].count === 0` compares the `COUNT(*)` column strictly with the number 0, but the driver returns that bigint column as the string "0" | a participant with no assignment (for example one registered while the bank was empty) logs in; the count column is "0", the check is false, and no questions are dealt | deal a batch when the participant has no assignment, as `createTeam`'s coercing `> 0` check does | high, not executed | Auth.LoginNeverAssignsAsWritten | Store.QuizDb.Login |
