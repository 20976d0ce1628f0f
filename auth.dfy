/** The login side of the user controller: the opaque password digest, the
    session token, and the login's check of the assignment count. */
module Auth {
  import opened Schema
  import opened JsValues

  /** bcrypt.hash: an opaque digest that only bcrypt.compare can relate to a password. */
  function Hash(password: string): PasswordHash
  {
    Hashed(password)
  }

  /** bcrypt.compare */
  predicate Matches(password: string, digest: PasswordHash)
  {
    digest == Hash(password)
  }

  /** jwt.sign({ id, username, role }): the claims of the signed token. */
  datatype Token = Token(id: nat, username: string, role: Role)

  /** The user columns the handlers answer with (never the password). */
  datatype Account = Account(id: nat, username: string, role: Role)

  /** What a successful login answers with. */
  datatype Session = Session(token: Token, user: Account)

  // ---------------------------------------------------------------------------
  // The assignment count as the login check sees it
  // ---------------------------------------------------------------------------

  /** The login check as written: assignedQuestions.rows[0].count === 0. */
  predicate LoginSeesNoAssignmentsAsWritten(count: nat)
  {
    StrictEquals(CountColumn(count), JsNumber(0))
  }

  /** As written the check never holds, not even for a participant with no
      assignment at all, so login never assigns questions. */
  lemma LoginNeverAssignsAsWritten(count: nat)
    ensures !LoginSeesNoAssignmentsAsWritten(count)
    ensures count == 0 ==> CountColumn(count) == JsString("0")
  {
  }

  /** The check as intended: the participant has no assignment. */
  predicate LoginSeesNoAssignments(count: nat)
  {
    count == 0
  }
}
