/**
 * The update handler (`backend/update.php`): it resets the session's error
 * list and refills it with one message per failed check, then issues the
 * UPDATE whatever the checks found. Only a successful write sets the success
 * message and redirects to the listing.
 */
module UpdateHandler {
  import opened Store
  import opened PhpStrings
  import opened Messages

  /** The POST fields; `id` is the row to change. */
  datatype UpdateForm = UpdateForm(
    id: int,
    fname: string,
    lname: string,
    email: string,
    password: string)

  const ListingPage := "../select.php"

  /** The order in which the handler runs its checks. */
  const UpdateOrder: seq<Check> := [Required, TooShort, EmailFormat, PasswordChars]

  /**
   * `empty()` on the three trimmed text fields; the password, which is not
   * trimmed, only counts as missing when it is exactly "".
   */
  predicate UpdateRequiredMissing(f: UpdateForm) {
    Empty(Trim(f.fname)) || Empty(Trim(f.lname)) || Empty(Trim(f.email)) || f.password == ""
  }

  /** Whether check `c` fails for this submission; `isEmail` is `filter_var(.., FILTER_VALIDATE_EMAIL)`. */
  predicate UpdateFails(f: UpdateForm, isEmail: string -> bool, c: Check) {
    match c
    case Required => UpdateRequiredMissing(f)
    case TooShort => |f.password| < 6
    case EmailFormat => !isEmail(Trim(f.email))
    case PasswordChars => !MatchesAlnumPattern(f.password)
    case _ => false
  }

  function UpdateFailsFn(f: UpdateForm, isEmail: string -> bool): Check -> bool {
    c => UpdateFails(f, isEmail, c)
  }

  /**
   * The error list the checks leave in the session: each check is listed
   * exactly when it fails (see `UpdateErrorsOrdered` for their order).
   */
  function UpdateErrors(f: UpdateForm, isEmail: string -> bool): (errs: seq<Check>)
    ensures forall c :: c in errs <==> UpdateFails(f, isEmail, c)
  {
    assert forall c :: c in UpdateOrder <==> c.Required? || c.TooShort? || c.EmailFormat? || c.PasswordChars?;
    FailedChecks(UpdateOrder, UpdateFailsFn(f, isEmail))
  }

  /** The position of each check in `UpdateOrder`; the checks this handler does not run come after. */
  function UpdateRank(c: Check): nat {
    match c
    case Required => 0
    case TooShort => 1
    case EmailFormat => 2
    case PasswordChars => 3
    case _ => 4
  }

  /** The failures appear in the order required, length, e-mail format, password characters. */
  lemma UpdateErrorsOrdered(f: UpdateForm, isEmail: string -> bool)
    ensures forall i, j :: 0 <= i < j < |UpdateErrors(f, isEmail)| ==>
      UpdateRank(UpdateErrors(f, isEmail)[i]) < UpdateRank(UpdateErrors(f, isEmail)[j])
  {
    var rank := c => UpdateRank(c);
    assert forall i :: 0 <= i < |UpdateOrder| ==> rank(UpdateOrder[i]) == i;
    FailedChecksRanked(UpdateOrder, UpdateFailsFn(f, isEmail), rank);
  }

  /** Lines 11-37 of the handler: the checks, run in order, each failure appended to the list. */
  method CheckUpdate(f: UpdateForm, isEmail: string -> bool) returns (errors: seq<Check>)
    ensures errors == UpdateErrors(f, isEmail)
  {
    ghost var fails := UpdateFailsFn(f, isEmail);
    var fname := Trim(f.fname);
    var lname := Trim(f.lname);
    var email := Trim(f.email);
    var password := f.password;

    errors := [];
    if Empty(fname) || Empty(lname) || Empty(email) || password == "" {
      errors := errors + [Required];
    }
    assert errors == FailedUpTo(UpdateOrder, 1, fails);

    if |password| < 6 {
      errors := errors + [TooShort];
    }
    assert errors == FailedUpTo(UpdateOrder, 2, fails);

    if !isEmail(email) {
      errors := errors + [EmailFormat];
    }
    assert errors == FailedUpTo(UpdateOrder, 3, fails);

    if !MatchesAlnumPattern(password) {
      errors := errors + [PasswordChars];
    }
    assert errors == FailedUpTo(UpdateOrder, 4, fails);
    assert |UpdateOrder| == 4;
  }

  /** The table after the handler's UPDATE: the trimmed names and e-mail, the password as submitted. */
  function UpdateResult(rows: seq<Student>, f: UpdateForm): seq<Student> {
    UpdatedRows(rows, f.id, Trim(f.fname), Trim(f.lname), Trim(f.email), f.password)
  }

  /**
   * The POST handler. `post` is None when the `update` field is absent, and
   * then nothing happens. Otherwise the checks refill the error list and the
   * UPDATE is issued in any case; `updateOk` is whether the query succeeded.
   * On success the success message is set and the handler redirects to the
   * listing; on failure nothing is written and the errors stay.
   */
  method ProcessUpdate(post: Option<UpdateForm>, isEmail: string -> bool, updateOk: bool, session: Session, table: StudentTable)
    returns (outcome: Outcome)
    requires table.Valid()
    modifies session, table
    ensures table.Valid()
    ensures post.None? ==> outcome == NoRedirect && unchanged(session) && unchanged(table)
    ensures post.Some? ==>
      && session.error == Texts(UpdateErrors(post.value, isEmail))
      && session.deleted == old(session.deleted)
    ensures post.Some? && updateOk ==>
      && table.rows == UpdateResult(old(table.rows), post.value)
      && table.nextId == old(table.nextId)
      && session.message == Some(UpdateSucceeded)
      && outcome == Redirect(ListingPage)
    ensures post.Some? && !updateOk ==>
      && unchanged(table)
      && session.message == old(session.message)
      && outcome == NoRedirect
  {
    if post.None? {
      return NoRedirect;
    }
    var f := post.value;
    var errors := CheckUpdate(f, isEmail);
    session.error := Texts(errors);

    if updateOk {
      table.UpdateWhereId(f.id, Trim(f.fname), Trim(f.lname), Trim(f.email), f.password);
      session.message := Some(UpdateSucceeded);
      return Redirect(ListingPage);
    }
    return NoRedirect;
  }

  /** An empty password fails three checks at once: required, length and characters. */
  lemma EmptyPasswordErrors(f: UpdateForm, isEmail: string -> bool)
    requires f.password == ""
    ensures Required in UpdateErrors(f, isEmail)
    ensures TooShort in UpdateErrors(f, isEmail)
    ensures PasswordChars in UpdateErrors(f, isEmail)
  {
  }

  /**
   * The handler has no duplicate check: an update that passes every check
   * still gives row `i` the e-mail address that row `j` already holds, so
   * the table ends up with two rows sharing it.
   */
  lemma UpdateCanDuplicateEmail(rows: seq<Student>, f: UpdateForm, isEmail: string -> bool, i: nat, j: nat)
    requires UpdateErrors(f, isEmail) == []
    requires i < |rows| && j < |rows| && i != j
    requires rows[i].id == f.id && rows[j].id != f.id
    requires rows[j].email == Trim(f.email)
    ensures !EmailsUnique(UpdateResult(rows, f))
  {
    var r := UpdateResult(rows, f);
    assert r[i].email == r[j].email;
    if j < i {
      assert !(r[j].email != r[i].email);
    }
  }
}
