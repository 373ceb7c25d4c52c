/**
 * The checks the two submission handlers run and the flash text each failed
 * check puts into the session's error list.
 */
module Messages {

  /** A failed validation step; `Text` gives the message the session receives. */
  datatype Check =
    | Required
    | TooShort
    | EmailFormat
    | Mismatch
    | PasswordChars
    | Duplicate
    | BadExtension
    | UploadFailed

  function Text(c: Check): string {
    match c
    case Required => "All fields are required"
    case TooShort => "Password must be at least 6 characters long"
    case EmailFormat => "Invalid email format"
    case Mismatch => "Passwords do not match"
    case PasswordChars => "Password must only contain letters and numbers (no special characters allowed)"
    case Duplicate => "Email is already registered"
    case BadExtension => "File extension not allowed. Allowed extensions: jpg, jpeg, png, pdf, doc, docx"
    case UploadFailed => "Failed to upload file"
  }

  /** The session's error list for a list of failed checks, message by message. */
  function Texts(cs: seq<Check>): (r: seq<string>)
    ensures |r| == |cs|
    ensures forall i :: 0 <= i < |cs| ==> r[i] == Text(cs[i])
  {
    if cs == [] then [] else [Text(cs[0])] + Texts(cs[1..])
  }

  /**
   * The checks among the first `k` of `order` that fail, kept in the order of
   * `order`: what a handler's error list holds after it has run those `k`
   * checks one after the other, appending one entry per failure.
   */
  function FailedUpTo(order: seq<Check>, k: nat, fails: Check -> bool): (r: seq<Check>)
    requires k <= |order|
    ensures |r| <= k
  {
    if k == 0 then []
    else FailedUpTo(order, k - 1, fails) + (if fails(order[k - 1]) then [order[k - 1]] else [])
  }

  /** A check is listed among the first `k` failures exactly when it is among the first `k` checks and fails. */
  lemma {:induction false} FailedUpToMembers(order: seq<Check>, k: nat, fails: Check -> bool)
    requires k <= |order|
    ensures forall c :: c in FailedUpTo(order, k, fails) <==> c in order[..k] && fails(c)
  {
    if k > 0 {
      FailedUpToMembers(order, k - 1, fails);
      assert order[..k] == order[..k - 1] + [order[k - 1]];
    }
  }

  /** The failing checks of the whole of `order`, in the order they are run. */
  function FailedChecks(order: seq<Check>, fails: Check -> bool): (r: seq<Check>)
    ensures forall c :: c in r <==> c in order && fails(c)
    ensures |r| <= |order|
  {
    FailedUpToMembers(order, |order|, fails);
    assert order[..|order|] == order;
    FailedUpTo(order, |order|, fails)
  }

  /**
   * When `rank` increases along `order`, it increases along the failed checks
   * too: they are listed in the order in which the checks are run.
   */
  lemma {:induction false} FailedUpToRanked(order: seq<Check>, k: nat, fails: Check -> bool, rank: Check -> int)
    requires k <= |order|
    requires forall i, j :: 0 <= i < j < |order| ==> rank(order[i]) < rank(order[j])
    ensures forall i, j :: 0 <= i < j < |FailedUpTo(order, k, fails)| ==>
      rank(FailedUpTo(order, k, fails)[i]) < rank(FailedUpTo(order, k, fails)[j])
  {
    if k > 0 {
      FailedUpToRanked(order, k - 1, fails, rank);
      var r := FailedUpTo(order, k - 1, fails);
      forall i | 0 <= i < |r| ensures rank(r[i]) < rank(order[k - 1]) {
        FailedUpToMembers(order, k - 1, fails);
        assert r[i] in FailedUpTo(order, k - 1, fails);
        var j :| 0 <= j < k - 1 && order[..k - 1][j] == r[i];
        assert order[j] == r[i];
      }
    }
  }

  lemma FailedChecksRanked(order: seq<Check>, fails: Check -> bool, rank: Check -> int)
    requires forall i, j :: 0 <= i < j < |order| ==> rank(order[i]) < rank(order[j])
    ensures forall i, j :: 0 <= i < j < |FailedChecks(order, fails)| ==>
      rank(FailedChecks(order, fails)[i]) < rank(FailedChecks(order, fails)[j])
  {
    FailedUpToRanked(order, |order|, fails, rank);
  }

  /** Followed by the database's own error text when the INSERT fails. */
  const RegisterFailedPrefix := "Failed to register: "
  const UpdateSucceeded := "Student updated successfully"
}
