/** The request handlers that touch the data document: the upload of an
    answer sheet, the student's listing and the teacher's page. Each takes the
    data file as it is before the request (None when it does not exist yet)
    and gives back the page shown and the data file after the request. */
module Routes {
  import opened Wrappers
  import opened Roles
  import FileIntake
  import Scoring
  import Store

  /** The file field of an upload request: the name the client sent, the
      (sanitised) name it is stored under, and the mean grey level of the
      image once converted to grey scale. A form whose file field is empty
      (no file chosen) carries None instead. */
  datatype Upload = Upload(clientName: string, storedName: string, mean: real)

  /** What the browser is sent back. */
  datatype View =
    | RedirectToLogin
    | RedirectToStudent(message: string)
    | UploadResult(score: int, total: int)
    | StudentListing(submissions: seq<Store.Submission>)
    | TeacherListing(submissions: seq<Store.Submission>, flashed: Option<string>)

  /** The page produced and the contents of the data file afterwards. */
  datatype Reply = Reply(view: View, stored: Option<Store.Doc>)

  const InvalidFileMessage: string := "Invalid file"
  const KeyUpdatedMessage: string := "Answer key updated"

  /** The intake check of the upload handler: a file was sent and its name
      passes `allowed_file`. No file, a file without a name, and a name
      without a dot are all turned away; otherwise the name is accepted
      exactly when the lower-cased text after its last dot is allowed. */
  function Accepts(file: Option<Upload>): (ok: bool)
    ensures file.None? ==> !ok
    ensures file.Some? && FileIntake.Dot !in file.value.clientName ==> !ok
    ensures file.Some? && |file.value.clientName| == 0 ==> !ok
    ensures file.Some? ==>
      (ok <==> exists i :: FileIntake.IsLastDot(file.value.clientName, i) &&
                 FileIntake.Lower(file.value.clientName[i + 1..]) in FileIntake.AllowedExtensions)
  {
    file.Some? && FileIntake.AllowedFile(file.value.clientName)
  }

  /** `upload`: a non-student is sent to the login page and an invalid file
      back to the student page, both without touching the data file;
      otherwise the sheet is scored against the current answer key and one
      submission, stamped with that key's question count, is appended. */
  function UploadRoute(stored: Option<Store.Doc>, session: Session, file: Option<Upload>,
                       timestamp: string): (r: Reply)
    ensures !Admits(session, UploadPage) ==> r == Reply(RedirectToLogin, stored)
    ensures Admits(session, UploadPage) && !Accepts(file) ==>
      r == Reply(RedirectToStudent(InvalidFileMessage), stored)
    ensures Admits(session, UploadPage) && Accepts(file) ==>
      var before := Store.Load(stored);
      && r.stored.Some?
      && r.stored.value.totalQuestions == before.totalQuestions
      && |r.stored.value.submissions| == |before.submissions| + 1
      && r.stored.value.submissions[..|before.submissions|] == before.submissions
      && var s := Store.Last(r.stored.value.submissions);
      && s.username == session.user.username
      && s.filename == file.value.storedName
      && s.total == before.totalQuestions
      && s.score == Scoring.Score(file.value.mean, before.totalQuestions)
      && s.timestamp == timestamp
      && r.view == UploadResult(s.score, s.total)
  {
    if !Admits(session, UploadPage) then Reply(RedirectToLogin, stored)
    else if !Accepts(file) then Reply(RedirectToStudent(InvalidFileMessage), stored)
    else
      var doc := Store.Load(stored);
      var after := Store.Record(doc, session.user.username, file.value.storedName,
                                file.value.mean, timestamp);
      var s := Store.Last(after.submissions);
      Reply(UploadResult(s.score, s.total), Some(after))
  }

  /** `student`: a non-student is sent to the login page; a student sees the
      stored submissions that carry their user name and no others. */
  function StudentRoute(stored: Option<Store.Doc>, session: Session): (r: Reply)
    ensures !Admits(session, StudentPage) ==> r == Reply(RedirectToLogin, stored)
    ensures Admits(session, StudentPage) ==>
      && r.stored == Some(Store.Load(stored))
      && r.view == StudentListing(Store.SubmissionsOf(Store.Load(stored).submissions,
                                                      session.user.username))
      && forall s :: s in r.view.submissions <==>
           s in Store.Load(stored).submissions && s.username == session.user.username
  {
    if !Admits(session, StudentPage) then Reply(RedirectToLogin, stored)
    else
      var doc := Store.Load(stored);
      Reply(StudentListing(Store.SubmissionsOf(doc.submissions, session.user.username)), Some(doc))
  }

  /** `teacher`: a non-teacher is sent to the login page; a teacher's form
      post (`newTotal`, already parsed as an integer) replaces the question
      count and nothing else; either way the teacher sees every submission in
      stored order. */
  function TeacherRoute(stored: Option<Store.Doc>, session: Session, newTotal: Option<int>): (r: Reply)
    ensures !Admits(session, TeacherPage) ==> r == Reply(RedirectToLogin, stored)
    ensures Admits(session, TeacherPage) ==>
      && r.stored.Some?
      && r.stored.value.submissions == Store.Load(stored).submissions
      && r.view == TeacherListing(Store.Load(stored).submissions,
                                  if newTotal.Some? then Some(KeyUpdatedMessage) else None)
    ensures Admits(session, TeacherPage) && newTotal.None? ==> r.stored == Some(Store.Load(stored))
    ensures Admits(session, TeacherPage) && newTotal.Some? ==>
      r.stored.value.totalQuestions == newTotal.value
  {
    if !Admits(session, TeacherPage) then Reply(RedirectToLogin, stored)
    else
      var doc := Store.Load(stored);
      match newTotal
      case None => Reply(TeacherListing(doc.submissions, None), Some(doc))
      case Some(t) =>
        var after := Store.SetTotal(doc, t);
        Reply(TeacherListing(after.submissions, Some(KeyUpdatedMessage)), Some(after))
  }

  /** After logout every handler sends the browser to the login page and
      leaves the data file alone. */
  lemma LoggedOutLockedOut(stored: Option<Store.Doc>, file: Option<Upload>, timestamp: string,
                           newTotal: Option<int>)
    ensures UploadRoute(stored, Logout(), file, timestamp) == Reply(RedirectToLogin, stored)
    ensures StudentRoute(stored, Logout()) == Reply(RedirectToLogin, stored)
    ensures TeacherRoute(stored, Logout(), newTotal) == Reply(RedirectToLogin, stored)
  {
    LogoutClosesEveryPage(UploadPage);
    LogoutClosesEveryPage(StudentPage);
    LogoutClosesEveryPage(TeacherPage);
  }

  /** A sheet with a disallowed extension never creates a submission: the
      student is sent back with a message and the data file, even a missing
      one, is left as it was. */
  lemma DisallowedUploadIgnored(stored: Option<Store.Doc>, username: string, email: Option<string>,
                                p: string, t: string, storedName: string, mean: real, timestamp: string)
    requires FileIntake.Dot !in t
    requires FileIntake.Lower(t) !in FileIntake.AllowedExtensions
    ensures UploadRoute(stored, Login(username, StudentRole, email),
                        Some(Upload(p + [FileIntake.Dot] + t, storedName, mean)), timestamp)
            == Reply(RedirectToStudent(InvalidFileMessage), stored)
  {
    FileIntake.AllowedFileBySuffix(p, t);
  }

  /** Once a teacher has set the question count to `total`, the next accepted
      upload is stamped with `total` and scored against it, whatever count
      earlier submissions were graded against, and those are left as they
      were. */
  lemma UploadAfterKeyUpdate(stored: Option<Store.Doc>, teacher: Session, total: int,
                             student: Session, file: Option<Upload>, timestamp: string)
    requires Admits(teacher, TeacherPage)
    requires Admits(student, UploadPage)
    requires Accepts(file)
    ensures var afterKey := TeacherRoute(stored, teacher, Some(total)).stored;
      var afterUpload := UploadRoute(afterKey, student, file, timestamp).stored;
      && afterUpload.Some?
      && |afterUpload.value.submissions| == |Store.Load(stored).submissions| + 1
      && afterUpload.value.submissions[..|Store.Load(stored).submissions|] == Store.Load(stored).submissions
      && Store.Last(afterUpload.value.submissions).total == total
      && Store.Last(afterUpload.value.submissions).score == Scoring.Score(file.value.mean, total)
  {
  }

  /** After an accepted upload the student's own listing is the listing from
      before plus the new submission at the end. */
  lemma UploadThenListing(stored: Option<Store.Doc>, student: Session, file: Option<Upload>,
                          timestamp: string)
    requires Admits(student, UploadPage)
    requires Accepts(file)
    ensures var up := UploadRoute(stored, student, file, timestamp);
      StudentRoute(up.stored, student).view ==
        StudentListing(StudentRoute(stored, student).view.submissions +
                       [Store.Last(up.stored.value.submissions)])
  {
    NoSessionAdmitsBoth(student);
    var doc := Store.Load(stored);
    var u := student.user.username;
    var f := file.value;
    var after := Store.Record(doc, u, f.storedName, f.mean, timestamp);
    assert after.submissions == doc.submissions + [Store.Last(after.submissions)];
    Store.ListingGrowsByOwnRecord(doc.submissions, Store.Last(after.submissions), u);
  }
}
