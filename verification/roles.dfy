/** The self-asserted identity of a browser session and the role check every
    protected page performs before doing anything else. */
module Roles {
  import opened Wrappers

  const StudentRole: string := "student"
  const TeacherRole: string := "teacher"

  /** A user as the login form describes them; the role is whatever string
      the form sent. */
  datatype User = User(username: string, role: string, email: Option<string>) {

    predicate IsStudent() { role == StudentRole }

    predicate IsTeacher() { role == TeacherRole }
  }

  /** The session store: empty before login and after logout, otherwise the
      user recorded at login. */
  datatype Session = Anonymous | SignedIn(user: User) {

    /** The value of the session's "role" key, if any. */
    function Role(): Option<string>
    {
      match this
      case Anonymous => None
      case SignedIn(u) => Some(u.role)
    }
  }

  /** The pages that check the session's role. */
  datatype Page = StudentPage | UploadPage | TeacherPage

  /** The role a page demands. */
  function RequiredRole(page: Page): string
  {
    match page
    case StudentPage => StudentRole
    case UploadPage => StudentRole
    case TeacherPage => TeacherRole
  }

  /** Logging in records the user, whatever role string the form carried. */
  function Login(username: string, role: string, email: Option<string>): (s: Session)
    ensures s.Role() == Some(role)
    ensures s.SignedIn? && s.user.username == username && s.user.email == email
  {
    SignedIn(User(username, role, email))
  }

  /** Logging out clears the session. */
  function Logout(): (s: Session)
    ensures s.Role().None?
  {
    Anonymous
  }

  /** The gate in front of a protected page: the session's role must equal
      the page's role exactly. Read in terms of the user's role predicates,
      the student pages admit a signed-in student and the teacher page a
      signed-in teacher, and nobody else. */
  function Admits(session: Session, page: Page): (ok: bool)
    ensures ok <==> (session.SignedIn? &&
                     if page == TeacherPage then session.user.IsTeacher() else session.user.IsStudent())
  {
    session.Role() == Some(RequiredRole(page))
  }

  /** A user is never both a student and a teacher. */
  lemma RolesExclusive(u: User)
    ensures !(u.IsStudent() && u.IsTeacher())
  {
  }

  /** No session opens both the student pages and the teacher page. */
  lemma NoSessionAdmitsBoth(session: Session)
    ensures !(Admits(session, StudentPage) && Admits(session, TeacherPage))
    ensures Admits(session, StudentPage) <==> Admits(session, UploadPage)
  {
  }

  /** After logout every protected page is closed. */
  lemma LogoutClosesEveryPage(page: Page)
    ensures !Admits(Logout(), page)
  {
  }

  /** After login a page is open exactly when the role typed at login is the
      page's role; any other role string opens nothing. */
  lemma LoginOpens(username: string, role: string, email: Option<string>, page: Page)
    ensures Admits(Login(username, role, email), page) <==> role == RequiredRole(page)
    ensures role != StudentRole && role != TeacherRole ==> !Admits(Login(username, role, email), page)
  {
  }
}
