/**
 * The registration handler (`backend/process_registration.php`): it resets
 * the session's error list, runs its checks in a fixed order appending one
 * message per failed check, and then either redirects back untouched or
 * inserts exactly one student row.
 */
module Registration {
  import opened Store
  import opened PhpStrings
  import opened Messages

  /** `$_FILES['file']`: the client's file name and PHP's upload error code (0 = received). */
  datatype Upload = Upload(name: string, errorCode: int)

  /** The POST fields; `upload` is None when `$_FILES['file']` is not set. */
  datatype RegistrationForm = RegistrationForm(
    fname: string,
    lname: string,
    email: string,
    password: string,
    cpassword: string,
    upload: Option<Upload>)

  /**
   * What the handler gets from code outside this model, fixed for one request:
   * `isEmail` is `filter_var(.., FILTER_VALIDATE_EMAIL)` succeeding, `hash` is
   * this request's `password_hash`, `token` is what `uniqid('file_')` puts
   * after "file_", `moveOk` is the result of `move_uploaded_file`, `insertOk`
   * that of the INSERT query with `dbError` its `mysqli_error` text, and
   * `now` is the creation timestamp the database assigns.
   */
  datatype Environment = Environment(
    isEmail: string -> bool,
    hash: string -> string,
    token: string,
    moveOk: bool,
    insertOk: bool,
    dbError: string,
    now: string)

  const AllowedExtensions: seq<string> := ["jpg", "jpeg", "png", "pdf", "doc", "docx"]
  const UploadDir := "../uploads/"
  const RegistrationPage := "../registration.php"

  /** `in_array($file_ext, $allowed_extensions)`: exact, case-sensitive membership. */
  predicate IsAllowedExtension(ext: string) {
    ext in AllowedExtensions
  }

  /** `strtolower(end(explode('.', $file_name)))`. */
  function UploadExtension(name: string): string {
    ToLower(LastSegment(name, '.'))
  }

  /**
   * The upload extension is the lower-cased text after the last '.' of the
   * client's file name, or the whole lower-cased name when it holds no '.':
   * it holds no '.' and no capital letter.
   */
  lemma UploadExtensionSpec(name: string)
    ensures '.' !in UploadExtension(name)
    ensures forall k :: 0 <= k < |UploadExtension(name)| ==> !IsAsciiUpper(UploadExtension(name)[k])
    ensures '.' !in name ==> UploadExtension(name) == ToLower(name)
    ensures '.' in name ==>
      var raw := LastSegment(name, '.');
      && |raw| < |name| && name[|name| - |raw| - 1] == '.' && name[|name| - |raw|..] == raw
      && UploadExtension(name) == ToLower(raw)
  {
    var raw := LastSegment(name, '.');
    LastSegmentSpec(name, '.');
    var ext := ToLower(raw);
    forall k | 0 <= k < |ext| ensures ext[k] != '.' {
      assert raw[k] != '.';
    }
  }

  /** A file came with the request: `isset($_FILES['file']) && $_FILES['file']['error'] == 0`. */
  predicate UploadReceived(u: Option<Upload>) {
    u.Some? && u.value.errorCode == 0
  }

  /** A file was received and its extension is on the allow-list. */
  predicate ExtensionAccepted(u: Option<Upload>) {
    UploadReceived(u) && IsAllowedExtension(UploadExtension(u.value.name))
  }

  /** A file was received and its extension is not on the allow-list. */
  predicate ExtensionRejected(u: Option<Upload>) {
    UploadReceived(u) && !IsAllowedExtension(UploadExtension(u.value.name))
  }

  /** `$upload_dir . uniqid('file_') . '.' . $file_ext`. */
  function UploadPath(token: string, ext: string): string {
    UploadDir + "file_" + token + "." + ext
  }

  /** The value of `$file_path` when the handler reaches the INSERT. */
  function StoredFilePath(u: Option<Upload>, token: string): (path: string)
    ensures path != "" <==> UploadReceived(u) && IsAllowedExtension(UploadExtension(u.value.name))
  {
    if UploadReceived(u) && IsAllowedExtension(UploadExtension(u.value.name))
    then UploadPath(token, UploadExtension(u.value.name))
    else ""
  }

  /**
   * A stored path is the upload directory, "file_", the token, '.' and the
   * upload's own extension, which is on the allow-list.
   */
  lemma StoredFilePathShape(u: Option<Upload>, token: string)
    requires StoredFilePath(u, token) != ""
    ensures UploadReceived(u) && IsAllowedExtension(UploadExtension(u.value.name))
    ensures StoredFilePath(u, token) == UploadPath(token, UploadExtension(u.value.name))
  {
  }

  /** `empty()` on one of the five fields; the three text fields are trimmed first. */
  predicate RequiredMissing(f: RegistrationForm) {
    Empty(Trim(f.fname)) || Empty(Trim(f.lname)) || Empty(Trim(f.email)) || Empty(f.password) || Empty(f.cpassword)
  }

  /** The order in which the handler runs its checks. */
  const RegistrationOrder: seq<Check> :=
    [Required, EmailFormat, Mismatch, PasswordChars, Duplicate, BadExtension, UploadFailed]

  /** Whether check `c` fails for this submission against the table's `rows`. */
  predicate RegistrationFails(f: RegistrationForm, rows: seq<Student>, env: Environment, c: Check) {
    match c
    case Required => RequiredMissing(f)
    case EmailFormat => !env.isEmail(Trim(f.email))
    case Mismatch => f.password != f.cpassword
    case PasswordChars => !MatchesAlnumPattern(f.password)
    case Duplicate => EmailRegistered(rows, Trim(f.email))
    case BadExtension => ExtensionRejected(f.upload)
    case UploadFailed => ExtensionAccepted(f.upload) && !env.moveOk
    case TooShort => false
  }

  function RegistrationFailsFn(f: RegistrationForm, rows: seq<Student>, env: Environment): Check -> bool {
    c => RegistrationFails(f, rows, env, c)
  }

  /**
   * The error list the checks leave in the session: each check is listed
   * exactly when it fails (see `RegistrationErrorsOrdered` for their order).
   */
  function RegistrationErrors(f: RegistrationForm, rows: seq<Student>, env: Environment): (errs: seq<Check>)
    ensures forall c :: c in errs <==> RegistrationFails(f, rows, env, c)
  {
    assert forall c :: c in RegistrationOrder <==> c != TooShort;
    FailedChecks(RegistrationOrder, RegistrationFailsFn(f, rows, env))
  }

  /** The position of each check in `RegistrationOrder`; `TooShort` is not run and comes last. */
  function RegistrationRank(c: Check): nat {
    match c
    case Required => 0
    case EmailFormat => 1
    case Mismatch => 2
    case PasswordChars => 3
    case Duplicate => 4
    case BadExtension => 5
    case UploadFailed => 6
    case TooShort => 7
  }

  /**
   * The failures appear in the order in which the handler runs the checks:
   * required, e-mail format, mismatch, password characters, duplicate e-mail,
   * file extension, upload.
   */
  lemma RegistrationErrorsOrdered(f: RegistrationForm, rows: seq<Student>, env: Environment)
    ensures forall i, j :: 0 <= i < j < |RegistrationErrors(f, rows, env)| ==>
      RegistrationRank(RegistrationErrors(f, rows, env)[i]) < RegistrationRank(RegistrationErrors(f, rows, env)[j])
  {
    var rank := c => RegistrationRank(c);
    assert forall i :: 0 <= i < |RegistrationOrder| ==> rank(RegistrationOrder[i]) == i;
    FailedChecksRanked(RegistrationOrder, RegistrationFailsFn(f, rows, env), rank);
  }

  /** The row a successful registration inserts, given the id the table assigns. */
  function NewStudent(f: RegistrationForm, env: Environment, id: int): Student {
    Student(id, Trim(f.fname), Trim(f.lname), Trim(f.email), env.hash(f.password),
            Some(StoredFilePath(f.upload, env.token)), env.now)
  }

  function SuccessMessage(fname: string, lname: string): string {
    "Registration successful for " + fname + " " + lname
  }

  /** The failed upload checks: a rejected extension, or an accepted one whose move failed. */
  function UploadErrors(u: Option<Upload>, env: Environment): seq<Check> {
    (if ExtensionRejected(u) then [BadExtension] else []) +
    (if ExtensionAccepted(u) && !env.moveOk then [UploadFailed] else [])
  }

  /** The field checks come first, the upload checks last. */
  lemma RegistrationErrorsSplit(f: RegistrationForm, rows: seq<Student>, env: Environment)
    ensures RegistrationErrors(f, rows, env) ==
      FailedUpTo(RegistrationOrder, 5, RegistrationFailsFn(f, rows, env)) + UploadErrors(f.upload, env)
  {
    var fails := RegistrationFailsFn(f, rows, env);
    var bad := if fails(BadExtension) then [BadExtension] else [];
    var moved := if fails(UploadFailed) then [UploadFailed] else [];
    assert UploadErrors(f.upload, env) == bad + moved;
    assert RegistrationOrder[5] == BadExtension && RegistrationOrder[6] == UploadFailed;
    var first := FailedUpTo(RegistrationOrder, 5, fails);
    assert first + (bad + moved) == first + bad + moved;
    assert |RegistrationOrder| == 7;
  }

  /**
   * Lines 48-77: the upload, when one was received. Yields `$file_path` and
   * the failed upload checks, in the order they are run.
   */
  method CheckUpload(u: Option<Upload>, env: Environment) returns (filePath: string, failures: seq<Check>)
    ensures filePath == StoredFilePath(u, env.token)
    ensures failures == UploadErrors(u, env)
  {
    filePath, failures := "", [];
    if UploadReceived(u) {
      var ext := UploadExtension(u.value.name);
      if !IsAllowedExtension(ext) {
        failures := [BadExtension];
      } else {
        filePath := UploadPath(env.token, ext);
        if !env.moveOk {
          failures := [UploadFailed];
        }
      }
    }
  }

  /**
   * Lines 10-45 of the handler: the checks on the form fields, run in order,
   * each failure appended to the list.
   */
  method CheckFields(f: RegistrationForm, rows: seq<Student>, env: Environment) returns (errors: seq<Check>)
    ensures errors == FailedUpTo(RegistrationOrder, 5, RegistrationFailsFn(f, rows, env))
  {
    ghost var fails := RegistrationFailsFn(f, rows, env);
    var fname := Trim(f.fname);
    var lname := Trim(f.lname);
    var email := Trim(f.email);
    var password := f.password;
    var cpassword := f.cpassword;

    errors := [];
    if Empty(fname) || Empty(lname) || Empty(email) || Empty(password) || Empty(cpassword) {
      errors := errors + [Required];
    }
    assert errors == FailedUpTo(RegistrationOrder, 1, fails);

    if !env.isEmail(email) {
      errors := errors + [EmailFormat];
    }
    assert errors == FailedUpTo(RegistrationOrder, 2, fails);

    if password != cpassword {
      errors := errors + [Mismatch];
    }
    assert errors == FailedUpTo(RegistrationOrder, 3, fails);

    if !MatchesAlnumPattern(password) {
      errors := errors + [PasswordChars];
    }
    assert errors == FailedUpTo(RegistrationOrder, 4, fails);

    if EmailRegistered(rows, email) {
      errors := errors + [Duplicate];
    }
  }

  /**
   * Lines 10-77 of the handler: the error list is reset and refilled with one
   * message per failed check, in the order the checks run. Also yields
   * `$file_path` as the checks leave it.
   */
  method CheckRegistration(f: RegistrationForm, rows: seq<Student>, env: Environment, session: Session)
    returns (filePath: string)
    modifies session`error
    ensures session.error == Texts(RegistrationErrors(f, rows, env))
    ensures filePath == StoredFilePath(f.upload, env.token)
  {
    var errors := CheckFields(f, rows, env);
    var uploadFailures;
    filePath, uploadFailures := CheckUpload(f.upload, env);
    errors := errors + uploadFailures;
    RegistrationErrorsSplit(f, rows, env);
    session.error := Texts(errors);
  }

  /**
   * The POST handler. `post` is None when the `register` field is absent, and
   * then nothing happens. Otherwise the checks refill the error list; with any
   * error the handler redirects back and writes nothing; without one it
   * inserts one row (or, when the INSERT fails, records the database error)
   * and redirects back.
   */
  method ProcessRegistration(post: Option<RegistrationForm>, env: Environment, session: Session, table: StudentTable)
    returns (outcome: Outcome)
    requires table.Valid()
    modifies session, table
    ensures table.Valid()
    ensures post.None? ==> outcome == NoRedirect && unchanged(session) && unchanged(table)
    ensures post.Some? ==> outcome == Redirect(RegistrationPage) && session.deleted == old(session.deleted)
    ensures post.Some? && RegistrationErrors(post.value, old(table.rows), env) != [] ==>
      && session.error == Texts(RegistrationErrors(post.value, old(table.rows), env))
      && session.message == old(session.message)
      && unchanged(table)
    ensures post.Some? && RegistrationErrors(post.value, old(table.rows), env) == [] && env.insertOk ==>
      && session.error == []
      && session.message == Some(SuccessMessage(Trim(post.value.fname), Trim(post.value.lname)))
      && table.rows == old(table.rows) + [NewStudent(post.value, env, old(table.nextId))]
      && table.nextId == old(table.nextId) + 1
    ensures post.Some? && RegistrationErrors(post.value, old(table.rows), env) == [] && !env.insertOk ==>
      && session.error == [RegisterFailedPrefix + env.dbError]
      && session.message == old(session.message)
      && unchanged(table)
  {
    if post.None? {
      return NoRedirect;
    }
    var f := post.value;
    var filePath := CheckRegistration(f, table.rows, env, session);

    if session.error != [] {
      return Redirect(RegistrationPage);
    }

    var hashed := env.hash(f.password);
    if env.insertOk {
      var _ := table.Insert(Trim(f.fname), Trim(f.lname), Trim(f.email), hashed, Some(filePath), env.now);
      session.message := Some(SuccessMessage(Trim(f.fname), Trim(f.lname)));
    } else {
      session.error := session.error + [RegisterFailedPrefix + env.dbError];
    }
    return Redirect(RegistrationPage);
  }

  /**
   * A registration that passes every check keeps e-mail addresses unique in
   * the table: the duplicate check has ruled out the new address.
   */
  lemma RegistrationKeepsEmailsUnique(f: RegistrationForm, rows: seq<Student>, env: Environment, id: int)
    requires EmailsUnique(rows)
    requires RegistrationErrors(f, rows, env) == []
    ensures EmailsUnique(rows + [NewStudent(f, env, id)])
  {
    assert !RegistrationFails(f, rows, env, Duplicate) by {
      assert Duplicate !in RegistrationErrors(f, rows, env);
    }
    var email := Trim(f.email);
    assert forall i :: 0 <= i < |rows| ==> rows[i].email != email;
    var all := rows + [NewStudent(f, env, id)];
    assert all[|rows|].email == email;
    assert forall i :: 0 <= i < |rows| ==> all[i] == rows[i];
  }

  /** The password examples: `abc123` is accepted, `abc!23` is rejected. */
  lemma PasswordExamples()
    ensures MatchesAlnumPattern("abc123")
    ensures !MatchesAlnumPattern("abc!23")
    ensures MatchesAlnumPattern("abc123\n")
  {
    SpecialCharRejected("abc!23", 3);
  }
}
