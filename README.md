# Student registration: a Dafny model

The application is a small PHP student register backed by one MySQL table,
`student`. It has three request handlers with behaviour worth stating:

- `backend/process_registration.php` handles the registration form. It
  empties the session's error list and runs its checks in a fixed order:
  required fields, e-mail format, password confirmation, password
  characters, duplicate e-mail, then the upload (extension allow-list and
  the file move). Each failed check appends one message. If any message was
  recorded, it redirects back and writes no row. Otherwise it inserts one
  row holding the hashed password and the generated upload path, sets a
  success message and redirects back.
- `backend/update.php` handles the edit form. It runs a different list of
  checks in order: required fields, minimum length, e-mail format, password
  characters. Then it issues the UPDATE whatever the checks found. A
  successful write sets "Student updated successfully" and redirects to the
  listing.
- `select.php` lists the students newest first (`ORDER BY id DESC`). It
  chooses a preview for each stored file from its `pathinfo` extension:
  no file, image, PDF, Word or generic. It shows the one-shot delete flash
  (session key `deleleted`) and removes it.

The Dafny modules follow that structure:

- `PhpStrings` (`php_strings.dfy`) models the PHP built-ins the handlers use
  on byte strings: `empty`, `trim`, `strtolower`, `end(explode(..))`,
  `basename`, the `pathinfo` extension and `preg_match('/^[A-Za-z0-9]+$/')`.
- `Store` (`store.dfy`) models the `student` table as a class with an
  AUTO_INCREMENT counter, and the session as a class with the `error`,
  `message` and `deleleted` keys. `ORDER BY id DESC` is a reference
  insertion sort. Any strictly descending arrangement of the rows is proved
  equal to it.
- `Messages` (`messages.dfy`) holds the checks, their exact message texts,
  and the generic "run the checks in order, append each failure" list
  together with its membership and ordering lemmas.
- `Registration` (`process_registration.dfy`), `UpdateHandler`
  (`update_handler.dfy`) and `Listing` (`select.dfy`) model the three
  handlers. The handlers are methods over the table and session objects,
  and each is proved against a specification function of its inputs.

Calls whose behaviour cannot be seen from this code become inputs:

- `filter_var(.., FILTER_VALIDATE_EMAIL)` is a predicate `isEmail`.
- `password_hash` is a function `hash`.
- The part of `uniqid('file_')` after "file_" is a string `token`.
- The results of `move_uploaded_file`, of the INSERT and of the UPDATE are
  flags.
- `mysqli_error` is a string.
- The `Date` column the database fills is a string `now`.

## Model

| member | source | states |
|---|---|---|
| PhpStrings.TrimLeftSpec | backend/process_registration.php:13-15 | `ltrim` keeps a suffix of its input; everything it dropped is a trim character, and what is left does not start with one |
| PhpStrings.TrimRightSpec | backend/process_registration.php:13-15 | `rtrim` keeps a prefix; everything it dropped is a trim character, and what is left does not end with one |
| PhpStrings.TrimSpec | backend/update.php:15-17 | `trim(s)` is a contiguous piece of `s` with only trim characters around it and none at either of its ends |
| PhpStrings.TrimUnchanged | backend/update.php:15-17 | a string with no trim character at either end is its own `trim` |
| PhpStrings.ToLower | backend/process_registration.php:55 | `strtolower` keeps the length, leaves no ASCII capital, keeps every other byte and maps each capital to its small letter (+32) |
| PhpStrings.LastIndexOf | backend/process_registration.php:54-55 | the result is -1 or the position of a `c`, and no `c` follows it |
| PhpStrings.LastSegmentSpec | backend/process_registration.php:54-55 | `end(explode(sep, s))` holds no `sep` and ends `s`; it is preceded by `sep` when `s` has one, and it is all of `s` when `s` has none |
| PhpStrings.LastSegmentOfSuffix | backend/process_registration.php:54-55 | when `s` ends in `sep` followed by a `sep`-free tail, that tail is the last segment |
| PhpStrings.PathinfoExtensionSpec | select.php:162 | a `pathinfo` extension never holds '.' or '/' |
| PhpStrings.PathinfoExtensionOfSuffix | select.php:162 | a path ending in "." + `ext`, with `ext` non-empty and free of '.' and '/', has `ext` as its `pathinfo` extension, whatever comes before it |
| PhpStrings.MatchesAlnumPatternIff | backend/process_registration.php:35-37 | the pattern matches exactly when the subject is a non-empty run of ASCII letters and digits, optionally followed by one final newline (PCRE `$`) |
| PhpStrings.SpecialCharRejected | backend/update.php:34-37 | a password with a byte outside `[A-Za-z0-9]` anywhere except a single final newline fails the pattern |
| Store.InsertById | select.php:147 | inserting a row into the sorted list yields the same rows plus that one, as a multiset |
| Store.InsertByIdBelow | select.php:147 | after the insertion, every row is the new row or an old one, so an upper bound on the ids still holds |
| Store.InsertByIdDescending | select.php:147 | inserting a row with an id not yet present keeps the ids strictly descending |
| Store.OrderByIdDesc | select.php:147 | the query result is a permutation of the table's rows |
| Store.OrderByIdDescDescending | select.php:147 | for distinct ids, the query result is strictly descending by id and has one entry per row |
| Store.SameFirstRow | select.php:147 | two strictly descending arrangements of the same rows begin with the same row |
| Store.SameRestRows | select.php:147 | removing that shared first row leaves two arrangements of the same rows |
| Store.DescendingOrderUnique | select.php:147 | two strictly descending arrangements of the same rows are equal, so every correct `ORDER BY id DESC` gives `OrderByIdDesc` |
| Store.UpdatedRows | backend/update.php:39 | the UPDATE keeps the number of rows and each row's id, file and date; rows with the id get the four new columns, and all other rows are untouched |
| Store.StudentTable.Insert | backend/process_registration.php:89-90 | the INSERT appends exactly one row, with an id no existing row has, and keeps ids distinct and below the counter |
| Store.StudentTable.UpdateWhereId | backend/update.php:39-41 | the table becomes `UpdatedRows` of the old table, and the id invariants are kept |
| Messages.Texts | backend/process_registration.php:19-75 | the session list has one message per failed check, in the same order, each with that check's exact text |
| Messages.FailedUpTo | backend/update.php:21-37 | after `k` checks the list has at most `k` entries |
| Messages.FailedUpToMembers | backend/update.php:21-37 | after `k` checks, a check is listed exactly when it is among the first `k` and fails |
| Messages.FailedChecks | backend/process_registration.php:19-75 | after all checks, a check is listed exactly when it is run and fails |
| Messages.FailedUpToRanked | backend/update.php:21-37 | when checks are run in increasing rank, the listed failures have increasing rank |
| Messages.FailedChecksRanked | backend/process_registration.php:19-75 | the complete error list is ordered like the checks |
| Registration.UploadExtensionSpec | backend/process_registration.php:54-55 | the upload extension is the lower-cased text after the last '.' (a suffix of the name, preceded by that '.'), or the whole lower-cased name when there is no dot; it has no '.' and no capital |
| Registration.StoredFilePath | backend/process_registration.php:48-70 | `$file_path` is non-empty exactly when a file was received and its extension is on the allow-list |
| Registration.StoredFilePathShape | backend/process_registration.php:55-70 | a non-empty `$file_path` means a file was received, and the path is `../uploads/file_<token>.<ext>` where `ext` is that upload's own lower-cased extension, which is on the allow-list |
| Registration.RegistrationErrors | backend/process_registration.php:19-77 | each check is in the error list exactly when it fails; a password mismatch and an already registered e-mail are reported whatever the other fields are |
| Registration.RegistrationErrorsOrdered | backend/process_registration.php:19-77 | the failures appear in the order: required, e-mail format, mismatch, password characters, duplicate, extension, upload |
| Registration.RegistrationErrorsSplit | backend/process_registration.php:19-77 | the error list is the field failures followed by the upload failures |
| Registration.CheckUpload | backend/process_registration.php:48-77 | the upload step leaves `StoredFilePath` in `$file_path`; it fails only on a rejected extension or a failed move of an accepted one |
| Registration.CheckFields | backend/process_registration.php:19-45 | appending field by field yields the first five checks' failures in order |
| Registration.CheckRegistration | backend/process_registration.php:10-77 | the session error list is reset and then holds exactly the texts of `RegistrationErrors`, in order |
| Registration.ProcessRegistration | backend/process_registration.php:8-101 | no form: nothing changes. Any error: a redirect, with the errors stored and the table unchanged. No error: one row with the trimmed fields, the hashed password and the stored path is appended under the next AUTO_INCREMENT id, the counter advances by one, the success message names the person, and the handler redirects back. A failed INSERT records the database error and leaves the table unchanged |
| Registration.RegistrationKeepsEmailsUnique | backend/process_registration.php:39-45 | a registration that passes every check keeps the table's e-mail addresses unique |
| Registration.PasswordExamples | backend/process_registration.php:35-37 | `abc123` passes the character check, `abc!23` fails it, and `abc123` followed by a newline passes it |
| UpdateHandler.UpdateErrors | backend/update.php:21-37 | each of required, length, e-mail format and characters is listed exactly when it fails; the password counts as missing only when it is "" |
| UpdateHandler.UpdateErrorsOrdered | backend/update.php:21-37 | the failures appear in the order: required, length, e-mail format, characters |
| UpdateHandler.CheckUpdate | backend/update.php:11-37 | appending check by check yields exactly `UpdateErrors` |
| UpdateHandler.ProcessUpdate | backend/update.php:8-47 | no form: nothing changes. Otherwise the error list holds the failures, and the UPDATE is issued whatever they are. On success, only the row with the id changes, the password is stored as typed, the AUTO_INCREMENT counter is kept, the success message is set, and the handler redirects to the listing. On failure nothing is written, the errors stay, and there is no redirect |
| UpdateHandler.EmptyPasswordErrors | backend/update.php:21-37 | an empty password fails the required, length and character checks at once |
| UpdateHandler.UpdateCanDuplicateEmail | backend/update.php:39-41 | an update that passes every check can still give one row another row's e-mail address |
| Listing.PreviewOf | select.php:159-192 | "No file" exactly for a NULL, "" or "0" column; image exactly for `jpg`/`jpeg`/`png`, PDF for `pdf`, Word for `doc`/`docx`, the generic glyph for any other extension; each link points at the stored path |
| Listing.CapitalNotRecognised | select.php:165-181 | an extension with a capital letter matches none of the recognised extensions |
| Listing.CapitalExtensionGeneric | select.php:162-185 | a stored path whose extension holds a capital (`PNG`) gets the generic glyph |
| Listing.Rendered | select.php:150-203 | an empty result gives the single "No students found" row; otherwise there is one row per fetched record, in fetch order |
| Listing.RenderRows | select.php:150-203 | the fetch loop produces exactly `Rendered` of the fetched records |
| Listing.RenderListing | select.php:126-151 | the flash shown is the session's delete flash, the key is cleared afterwards, and the table is the rendering of the rows newest first |
| Listing.RenderedDescending | select.php:147-151 | rendering any strictly descending fetch gives student rows with strictly decreasing ids (for an empty fetch the single "No students found" row) |
| Listing.RenderedShowsEach | select.php:151-200 | every fetched record has its row in the table |
| Listing.ListingOrder | select.php:147-203 | the listing is "No students found" exactly when the table is empty; otherwise it has one row per record, every record appears, and ids strictly decrease down the page |
| Listing.AllowedExtensionKnown | select.php:165-181 | every extension the registration allow-list accepts is one the listing recognises, and it holds no '.' or '/' |
| Listing.UploadPathPreview | select.php:159-185 | the path `../uploads/file_<token>.<ext>` for an allowed extension has `ext` as its `pathinfo` extension and gets that extension's category preview, linking to the path |
| Listing.AcceptedUploadPreview | select.php:159-185 | a file the registration handler accepts is shown as image, PDF or Word, never as the generic glyph and never as "No file" |
| Listing.RegisteredFilePreview | select.php:159-192 | a registered row shows "No file" exactly when no upload was accepted, and never the generic glyph |
| PhpStrings.Empty | backend/process_registration.php:20 | PHP `empty()` on a string: true for "" and "0" only |
| PhpStrings.TrimLeft | backend/process_registration.php:13-15 | `ltrim`; its meaning is stated by `PhpStrings.TrimLeftSpec` |
| PhpStrings.TrimRight | backend/process_registration.php:13-15 | `rtrim`; its meaning is stated by `PhpStrings.TrimRightSpec` |
| PhpStrings.Trim | backend/update.php:15-17 | `trim` with the default character set; its meaning is stated by `PhpStrings.TrimSpec` and `PhpStrings.TrimUnchanged` |
| PhpStrings.LastSegment | backend/process_registration.php:54-55 | `end(explode(sep, s))`; its meaning is stated by `PhpStrings.LastSegmentSpec` and `PhpStrings.LastSegmentOfSuffix` |
| PhpStrings.StripTrailingSlashes | select.php:162 | the `rtrim('/')` step of `basename` |
| PhpStrings.Basename | select.php:162 | `basename`: the last '/'-segment after trailing slashes are dropped; `PhpStrings.PathinfoExtensionSpec` proves it holds no '/' |
| PhpStrings.PathinfoExtension | select.php:162 | `pathinfo($p, PATHINFO_EXTENSION)`: the text after the basename's last '.', or "" when it has none; its meaning is stated by `PhpStrings.PathinfoExtensionSpec` and `PhpStrings.PathinfoExtensionOfSuffix` |
| PhpStrings.MatchesAlnumPattern | backend/update.php:34-35 | `preg_match('/^[A-Za-z0-9]+$/')`; `PhpStrings.MatchesAlnumPatternIff` proves it equal to the pattern's PCRE meaning |
| Messages.Text | backend/process_registration.php:21-74 | the exact message text of each check, as both handlers append it |
| Registration.IsAllowedExtension | backend/process_registration.php:50-58 | exact, case-sensitive membership in jpg, jpeg, png, pdf, doc, docx |
| Registration.UploadExtension | backend/process_registration.php:54-55 | `strtolower(end(explode('.', name)))`; its meaning is stated by `Registration.UploadExtensionSpec` |
| Registration.UploadReceived | backend/process_registration.php:49 | a file is present and its upload error code is 0 |
| Registration.UploadPath | backend/process_registration.php:62-70 | `../uploads/` + `file_` + token + `.` + extension; `Listing.UploadPathPreview` (through `PhpStrings.PathinfoExtensionOfSuffix`) proves its `pathinfo` extension is the `ext` it was built from |
| Registration.RequiredMissing | backend/process_registration.php:20 | `empty()` on the trimmed names and e-mail and on the untrimmed password and confirmation |
| Registration.RegistrationFails | backend/process_registration.php:20-75 | the condition under which each of the seven checks fails; `Registration.RegistrationErrors` proves the error list holds exactly the failing checks |
| Registration.UploadErrors | backend/process_registration.php:58-75 | the upload failures: a rejected extension, or an accepted one whose move failed; `Registration.CheckUpload` and `Registration.RegistrationErrorsSplit` relate it to the handler |
| Registration.NewStudent | backend/process_registration.php:86-89 | the inserted row: trimmed names and e-mail, the hashed password, the stored path and the database timestamp; `Registration.ProcessRegistration` proves it is what the INSERT appends |
| Registration.SuccessMessage | backend/process_registration.php:94 | "Registration successful for " followed by the first name, a space and the last name |
| UpdateHandler.UpdateRequiredMissing | backend/update.php:21 | `empty()` on the trimmed names and e-mail, and the password exactly "" |
| UpdateHandler.UpdateFails | backend/update.php:21-37 | the condition under which each of the four checks fails; `UpdateHandler.UpdateErrors` proves the error list holds exactly the failing checks |
| UpdateHandler.UpdateResult | backend/update.php:39 | the UPDATE's values: trimmed names and e-mail and the password as typed, through `Store.UpdatedRows` |
| Listing.HasFile | select.php:160 | `!empty($row['file'])`: the column is neither NULL nor "" nor "0" |
| Listing.RowOf | select.php:152-194 | the cells echoed for one record: id, names, e-mail, the preview of its file and its date |
| Store.EmailRegistered | backend/process_registration.php:40-43 | the duplicate-e-mail SELECT returns a row: some row holds exactly this address (exact equality, see "## Left out"); `Registration.RegistrationErrors` proves the duplicate error is listed exactly then |
| Registration.ExtensionAccepted | backend/process_registration.php:58-76 | a file was received and its extension is on the allow-list (the `else` branch); `Registration.StoredFilePath` and `Registration.CheckUpload` prove the path is set exactly then |
| Registration.ExtensionRejected | backend/process_registration.php:58-59 | a file was received and its extension is not on the allow-list; `Registration.CheckUpload` proves the extension error is added exactly then |
| Listing.IsImageExt | select.php:165 | exact, case-sensitive membership in jpg, jpeg, png; `Listing.PreviewOf` proves the image preview is chosen exactly then |
| Listing.IsWordExt | select.php:179 | exact, case-sensitive membership in doc, docx; `Listing.PreviewOf` proves the Word preview is chosen exactly then |

## Left out

- The database connection and the mysqli calls are left out. The table is
  an abstract sequence of rows. `mysqli_real_escape_string` is treated as
  the identity, SQL string construction is not modelled, and SQL injection
  is out of scope.
- The MySQL collation of the duplicate-e-mail SELECT is not modelled: it is
  exact string equality here, while a case-insensitive collation would also
  match addresses that differ only in letter case.
- `filter_var`, `password_hash`, `uniqid`, `move_uploaded_file` and the query
  results are inputs (see above). Their internal behaviour, and the
  randomness of the hash and the token, are not modelled.
- The uploads directory is not modelled. A file accepted and moved at
  `backend/process_registration.php:73` stays in `../uploads/` when a check
  failed (for example an e-mail already registered): the handler does not
  remove it, and no row points to it.
- `file_exists` and `mkdir` on the upload directory are not modelled: they
  have no effect on the stored path or on the error list.
- `header()` and `exit()` become the returned `Outcome`. The model does not
  capture that `var_dump` at `backend/update.php:19` writes output before
  `header()`, which, without output buffering, stops the redirect.
- The `var_dump` debug output itself is not modelled.
- HTML, CSS, the Bootstrap assets and the JavaScript fade timer of the
  listing are presentation only and are not modelled. The preview keeps only
  its category and link.
- `update.php` (the edit form page), `delete.php`, `registration.php`,
  `includes/header.php` and `db/connect.php` are not part of this model.
- Multibyte text is not modelled: one `char` stands for one byte, as
  `strlen`, `trim` and `strtolower` see it.
- The `id` POST field is a number here. The string-to-number conversion and
  a malformed `id` in the UPDATE's WHERE clause are not modelled.
- An absent `fname`/`lname`/`email`/`password` POST field (PHP null) is not
  modelled: every field of a submitted form is a string.
- The `file` column reads back as written: a registration without an
  accepted upload stores "", which the listing shows as "No file".
- Registration.CheckRegistration: the handler appends to
  `$_SESSION['error']` itself, while the model builds the list locally and
  stores it once at the end. Nothing reads the list in between, so the final
  session state is the same.
- UpdateHandler.ProcessUpdate: the UPDATE is issued even when checks
  failed. Read on its own, the handler suggests that validation guards the
  write, but the code does not do so, and the model follows the code.
- Registration.RegistrationKeepsEmailsUnique: requests are modelled one at
  a time, each running atomically over the table. In the handler the
  duplicate-e-mail SELECT and the INSERT are separate queries with no lock,
  so two concurrent registrations with the same address can both pass the
  check and both insert. The lemma holds for requests that run one after
  the other.
- Query failure is modelled as `mysqli_query` returning false, which the
  handlers test with `if ($result)`. Where mysqli is configured to throw on
  errors (the default from PHP 8.1), a failed INSERT or UPDATE raises an
  exception instead: neither the "Failed to register: ..." entry nor the
  update's fall-through without a redirect would then happen. The
  connection settings in `db/connect.php` are not part of this model.
