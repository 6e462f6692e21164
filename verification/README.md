# E-assessment core, modelled in Dafny

The e-assessment web application lets a student sign in under a self-chosen
name and role, upload a photo or scan of an answer sheet, and get back a score
derived from how dark the sheet is. A teacher sets the number of questions in
the answer key and sees every submission. All state lives in one data
document: the answer key's question count and the list of submissions.

This project models the pure core of `app.py`:

- `FileIntake` — `allowed_file`: Python's `rsplit('.', 1)`, ASCII
  lower-casing, and the `{png, jpg, jpeg}` allow-list.
- `Scoring` — the arithmetic of `calculate_score` over `real`: the clamped
  filled ratio `max(0, min(1, (255 - mean) / 255))`, and Python's `round`
  (nearest integer, ties to even).
- `Roles` — the `User` role predicates, the session store as a value (empty,
  or signed in as a user), login and logout, and the exact-role gate in front
  of `/student`, `/upload` and `/teacher`.
- `Store` — the immutable `Doc(totalQuestions, submissions)` and the
  `Submission` record. It covers the default document `load_data` creates,
  appending an upload's record, the teacher's update of the question count,
  and the per-student filter.
- `Routes` — the `upload`, `student` and `teacher` handlers as functions.
  Each takes the data file before the request (`None` when it does not exist)
  and returns the page shown plus the data file after the request.
- `Wrappers` — the `Option` type.

The mean grey level of an image, the sanitised stored file name and the
upload timestamp are inputs to the model. They are not computed.

Three behaviours of `app.py` are worth noting:

- Login writes whatever role string was sent into the session before the
  redirect (app.py:97-100). Such a session opens no protected page
  (`Roles.LoginOpens`). What the redirect itself does is listed under
  "Left out".
- The teacher page lists submissions in stored order, oldest first
  (app.py:157).
- An image that cannot be decoded raises an exception in
  `calculate_score` (app.py:65). That path is not modelled.

## Model

| member | source | states |
|---|---|---|
| FileIntake.RSplitOnce | app.py:62 | `rsplit(sep, 1)` gives two parts exactly when `sep` occurs. The parts joined with `sep` give back the name, and the last part contains no `sep`, so the split is at the last occurrence. |
| FileIntake.RSplitOnceAtLast | app.py:62 | A name `p + "." + t`, where `t` has no dot, splits into exactly `[p, t]`. |
| FileIntake.LowerChar | app.py:62 | Lower-casing one character never leaves an upper-case letter. It maps an upper-case letter to the lower-case letter at the same place in the alphabet and keeps every other character. A character becomes one of `p n g j e` exactly when it is one of them in either case. |
| FileIntake.Lower | app.py:62 | `str.lower()` keeps the length and works character by character. No upper-case letter is left, and every other character is unchanged. |
| FileIntake.LastDotExists | app.py:62 | A name has a last dot exactly when it contains a dot. The first part of `rsplit('.', 1)` ends just before that dot. |
| FileIntake.LastDotSplit | app.py:62 | The text after a last dot is the second part of `rsplit('.', 1)`. |
| FileIntake.AllowedFile | app.py:61-62 | `allowed_file` accepts a name exactly when the name has a last dot and the lower-cased text after it is `png`, `jpg` or `jpeg`. |
| FileIntake.AllowedFileAtLastDot | app.py:62 | When the last dot of a name is at position i, the verdict depends only on the lower-cased text after position i. |
| FileIntake.AllowedFileBySuffix | app.py:62 | Only the text after the last dot matters: whatever comes before it, `p.t` is accepted exactly when `t` lower-cased is in the allow-list. |
| FileIntake.NoDotRejected | app.py:62 | A name with no dot is rejected. |
| FileIntake.AllowedFileAsLowered | app.py:62 | Lower-casing a name does not change the verdict. |
| FileIntake.AllowedFileIgnoresCase | app.py:62 | Two names with the same lower-case form are both accepted or both rejected. |
| FileIntake.AcceptsUpperCaseExtension | app.py:62 | `a.b.PNG` is accepted. |
| FileIntake.RejectsDoubleExtension | app.py:62 | `sheet.png.txt` is rejected. |
| FileIntake.RejectsTrailingDot | app.py:62 | `file.` is rejected, because its extension is empty. |
| Scoring.Round | app.py:68 | `round` returns an integer within 1/2 of its argument, and on a tie it returns the even neighbour. |
| Scoring.RoundMonotone | app.py:68 | Rounding preserves order. |
| Scoring.Ratio | app.py:67 | The filled ratio lies in [0, 1]. It is 1 for a mean of 0 or less and 0 for a mean of 255 or more. In between, ratio × 255 = 255 − mean. |
| Scoring.RatioAntitone | app.py:67 | A brighter sheet never has a larger filled ratio. |
| Scoring.Score | app.py:67-68 | The score is within 1/2 of ratio × total. It lies in [0, total] when total ≥ 0 and in [total, 0] otherwise. A white sheet scores 0 and a black sheet scores the total. |
| Scoring.ScoreBounds | app.py:67-68 | Rounding a ratio in [0, 1] of the total stays between 0 and the total. It is exactly 0 at ratio 0 and exactly the total at ratio 1. |
| Scoring.ScoreAntitone | app.py:67-68 | For a total ≥ 0, the score does not increase as the mean grey level increases. |
| Roles.Login | app.py:92-99 | Login stores the user name, role and e-mail in the session, whatever role string the form sent. |
| Roles.Logout | app.py:105 | After logout the session has no role. |
| Roles.Admits | app.py:108-119 | A protected page opens exactly for a signed-in user: `is_student` for the student and upload pages, `is_teacher` for the teacher page. |
| Roles.RolesExclusive | app.py:32-36 | `is_student` and `is_teacher` are never both true. |
| Roles.NoSessionAdmitsBoth | app.py:146-149 | No session opens both the student pages and the teacher page. A session opens the upload page exactly when it opens the student page. |
| Roles.LogoutClosesEveryPage | app.py:103-106 | After logout every protected page is closed. |
| Roles.LoginOpens | app.py:89-100 | After login, a page opens exactly when the role typed in is the page's role. A role other than student or teacher opens nothing. |
| Store.Load | app.py:49-55 | The stored document is returned unchanged. When there is none, the new document has 10 questions and no submissions. |
| Store.LoadStable | app.py:49-53 | Loading the document that a load left behind returns the same document. |
| Store.Record | app.py:130-135 | An accepted upload appends exactly one submission. It carries the student's name, the stored file name, the score against the current total, that total, and the timestamp. Earlier submissions and the question count are unchanged. |
| Store.SetTotal | app.py:153 | The teacher's update changes the question count only. The submissions are unchanged. |
| Store.SubmissionsOf | app.py:113 | The listing holds exactly the stored submissions with the given user name, and it is no longer than the store. |
| Store.SubmissionsOfAppend | app.py:113 | Filtering a concatenation is the concatenation of the filtered parts. The filter therefore keeps stored order. |
| Store.SubmissionsOfSingle | app.py:113 | A single submission is kept exactly when its user name matches. |
| Store.ScoresInRangeKept | app.py:130-136 | The default document, an upload and the teacher's update all keep every score within [0, total] whenever that total is not negative. |
| Store.ListingGrowsByOwnRecord | app.py:113-135 | Appending a submission of a student makes that student's listing their previous listing plus this submission at the end. |
| Store.RecordListingOthers | app.py:130-135 | An upload leaves every other student's listing unchanged. |
| Store.TotalStampedAtUpload | app.py:131-134 | After the question count is changed, the next submission is stamped and scored with the new count, and earlier submissions keep theirs. |
| Routes.Accepts | app.py:122 | The intake test turns away a missing file, a file with an empty name and a name without a dot. Otherwise it accepts exactly when the lower-cased text after the last dot is allowed. |
| Routes.UploadRoute | app.py:116-136 | A non-student is redirected to login and an invalid file goes back to the student page. In both cases the data file, even a missing one, is untouched. Otherwise exactly one submission is appended and the page shows its score and total. |
| Routes.StudentRoute | app.py:108-114 | A non-student is redirected to login. A student sees exactly the filter `Store.SubmissionsOf` of the stored submissions by their user name. That is their own submissions, each as often as it is stored, in stored order (`Store.SubmissionsOfAppend`). |
| Routes.TeacherRoute | app.py:146-157 | A non-teacher is redirected to login. A teacher's post sets the question count and nothing else. The teacher always sees all submissions in stored order. |
| Routes.LoggedOutLockedOut | app.py:105-119 | After logout, upload, student and teacher requests all redirect to login and leave the data file alone. |
| Routes.DisallowedUploadIgnored | app.py:121-124 | A file whose last extension is not allowed (for example `sheet.txt`) creates no submission. The student is redirected with "Invalid file". |
| Routes.UploadAfterKeyUpdate | app.py:130-153 | After a teacher sets the count to `total`, the next accepted upload is stamped and scored with `total`, and earlier submissions are untouched. |
| Routes.UploadThenListing | app.py:113-135 | After an accepted upload, the student's listing is the previous listing plus the new submission. |

## Left out

- Flask routing, templates, `flash` rendering and the session cookie are left out. The session is a value and a page is a datatype.
- The login redirect `url_for(user.role)` (app.py:100) is not modelled. For a role that names no endpoint it raises, and whether the session written just before is kept then depends on Flask. `Roles.Login` models the session as written.
- A request missing the `username`, `role`, `image` or `total` form field raises a 400 in Flask. This path is not modelled.
- File I/O is left out: saving the upload and reading or writing the JSON file. The data file is an `Option<Doc>`, and a corrupt file is not modelled.
- PIL decoding and the `ImageStat` mean are a foreign library, and their failure path is left out. The mean grey level is an input real.
- Python floats are left out. All arithmetic is on exact reals, so float rounding of `(255 - mean) / 255` is not reproduced.
- `secure_filename` is werkzeug code and is not part of this model. The stored file name is an input string.
- `int()` parsing of the teacher's form is left out, including its error on non-numeric input. The new total is an input integer and may be negative.
- `send_email` and SMTP are left out, including the failure after the document has already been saved. `datetime.utcnow()` is left out too: the timestamp is an opaque input string.
- FileIntake.Lower: lower-cases ASCII letters only and keeps every other character unchanged. Python's `str.lower` also maps non-ASCII upper-case letters. The only ones whose lower-case form contains ASCII letters are the Kelvin sign (to `k`) and the dotted capital I (to `i` plus a combining dot). Neither produces a letter of `png`, `jpg` or `jpeg`.
- Concurrent requests are not modelled: each request runs alone, with its load, change and save as one step. In the source, `upload` (app.py:130-136) and `teacher` (app.py:151-154) read the data file and rewrite it without a lock, and `app.run` serves requests on threads. A teacher's update that overlaps an upload can therefore overwrite the new submission. The contracts about the data file hold only for a request that runs alone.
