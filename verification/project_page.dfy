/**
  The customer portal page: the registration dialog's checks, loading the
  project details, sending a comment, which screen the page renders, and the
  formatting of project content and comment authors.
 */
module ProjectPage {
  import opened Wrappers
  import opened Text
  import opened Auth
  import opened Portal

  // ---------------------------------------------------------------- registration dialog

  datatype RegisterForm = RegisterForm(username: string, password: string, confirm: string)

  const FillAllFields := "Bitte füllen Sie alle Felder aus."
  const PasswordsDiffer := "Die Passwörter stimmen nicht überein."
  const PasswordTooShort := "Das Passwort muss mindestens 6 Zeichen lang sein."
  const RegistrationFailed := "Registrierung fehlgeschlagen."
  const SomethingWentWrong := "Ein Fehler ist aufgetreten."

  /** The checks of `handleRegister`, in order; the first that fails names the error. */
  function RegisterError(f: RegisterForm): Option<string> {
    if f.username == "" || f.password == "" || f.confirm == "" then Some(FillAllFields)
    else if f.password != f.confirm then Some(PasswordsDiffer)
    else if |f.password| < MinPasswordLength then Some(PasswordTooShort)
    else None
  }

  /** The form passes exactly when every field is filled, both passwords agree and the password is long enough. */
  lemma RegisterErrorSpec(f: RegisterForm)
    ensures RegisterError(f).None? <==>
      f.username != "" && f.password != "" && f.password == f.confirm && |f.password| >= MinPasswordLength
    ensures RegisterError(f) == Some(PasswordsDiffer) ==> f.username != "" && f.password != "" && f.confirm != ""
    ensures RegisterError(f) == Some(PasswordTooShort) ==> f.username != "" && f.password == f.confirm
  {
  }

  /** What the dialog gets back: the response's `ok` flag and `message`, or nothing when the request or its body failed. */
  datatype Answer = Answered(ok: bool, message: Option<string>) | Unreachable

  /** The dialog after `handleRegister`: the error shown, whether success is shown, and whether a request went out. */
  datatype Dialog = Dialog(error: string, success: bool, sent: bool)

  function HandleRegister(f: RegisterForm, answer: Answer): (d: Dialog)
    ensures d.sent <==> RegisterError(f).None?
    ensures RegisterError(f).Some? ==> d.error == RegisterError(f).value
    ensures d.success <==> d.sent && answer.Answered? && answer.ok
    ensures d.success ==> d.error == ""
    ensures !d.success ==> d.error != ""
    ensures d.sent && answer.Unreachable? ==> d.error == SomethingWentWrong
  {
    var check := RegisterError(f);
    if check.Some? then Dialog(check.value, false, false)
    else match answer
      case Unreachable => Dialog(SomethingWentWrong, false, true)
      case Answered(ok, msg) =>
        if ok then Dialog("", true, true)
        else Dialog(if TruthyText(msg) then msg.value else RegistrationFailed, false, true)
  }

  /** The browser's view of a handler reply: `res.ok` is a 2xx status. */
  function AnswerOf(r: Reply): Answer {
    Answered(200 <= r.status < 300, r.message)
  }

  /** A form the dialog accepts is never refused by the server's own validation, and the two length rules agree. */
  lemma ClientChecksCoverServerChecks(f: RegisterForm, db: Db, hash: string -> string, dbDown: bool)
    requires RegisterError(f).None?
    ensures Register("POST", Some(f.username), Some(f.password), db, hash, dbDown).status in {201, 409, 500}
  {
  }

  /** Whatever the server's validation refuses, the dialog refuses first, with the same words for a short password. */
  lemma ServerChecksCoveredByClient(u: string, p: string, db: Db, hash: string -> string, dbDown: bool)
    requires Register("POST", Some(u), Some(p), db, hash, dbDown).status == 400
    ensures RegisterError(RegisterForm(u, p, p)).Some?
    ensures u != "" && p != "" ==>
      RegisterError(RegisterForm(u, p, p)) == Register("POST", Some(u), Some(p), db, hash, dbDown).message
  {
  }

  /** Registering through the dialog: success exactly when the server stores the user, otherwise the server's message. */
  lemma RegisterEndToEnd(f: RegisterForm, db: Db, hash: string -> string)
    requires RegisterError(f).None?
    ensures var d := HandleRegister(f, AnswerOf(Register("POST", Some(f.username), Some(f.password), db, hash, false)));
      (d.success <==> !UsernameTaken(db, f.username))
      && (UsernameTaken(db, f.username) ==> d.error == "Dieser Benutzername ist bereits vergeben.")
  {
  }

  // ---------------------------------------------------------------- the page

  /** The page's state: loading flag, the fetched details, the comment input. */
  datatype Page = Page(
    loading: bool,
    viewMode: Option<ViewMode>,
    project: Option<ProjectRecord>,
    projectsList: seq<ProjectSummary>,
    comments: seq<CommentView>,
    newMessage: string)

  /**
    The end of `fetchData`: `reply` is None when the request or its body
    failed. A 500 body has none of the fields, which the page stores as
    absent or empty.
   */
  function ApplyDetails(s: Page, reply: Option<DetailsReply>): (r: Page)
    ensures !r.loading && r.newMessage == s.newMessage
    ensures reply.None? ==> r == s.(loading := false)
    ensures reply == Some(DetailsError) ==> r.viewMode.None? && r.project.None? && r.projectsList == [] && r.comments == []
  {
    match reply
    case None => s.(loading := false)
    case Some(DetailsError) => s.(loading := false, viewMode := None, project := None, projectsList := [], comments := [])
    case Some(DetailsOk(mode, p, list, cs)) => s.(loading := false, viewMode := Some(mode), project := p, projectsList := list, comments := cs)
  }

  /** What the page shows, and whether the not-found screen offers to sign in. */
  datatype Screen = Loading | Overview | NotFound(offerSignIn: bool) | ProjectView

  /** The render dispatch: loading first, then the admin overview, then the missing project, then the project. */
  function Render(s: Page, authLoading: bool, session: Option<SessionUser>): (sc: Screen)
    ensures sc == Loading <==> s.loading || authLoading
    ensures sc == Overview <==> !s.loading && !authLoading && s.viewMode == Some(AdminList)
    ensures sc.NotFound? <==> !s.loading && !authLoading && s.viewMode != Some(AdminList) && s.project.None?
    ensures sc.NotFound? ==> (sc.offerSignIn <==> session.None?)
  {
    if s.loading || authLoading then Loading
    else if s.viewMode == Some(AdminList) then Overview
    else if s.project.None? then NotFound(session.None?)
    else ProjectView
  }

  /** After loading, an admin without an id sees the overview, and an anonymous visitor without an id is asked to sign in. */
  lemma RenderAfterLoad(s: Page, session: Option<SessionUser>, idParam: Option<int>, db: Db, dbDown: bool)
    ensures var after := ApplyDetails(s, Some(Details(session, idParam, db, dbDown)));
      (Render(after, false, session) == Overview <==> IsAdmin(session) && !TruthyId(idParam) && !dbDown)
      && (session.None? && !TruthyId(idParam) ==> Render(after, false, session) == NotFound(true))
      && (Render(after, false, session) == ProjectView ==> after.project.Some? && !(IsAdmin(session) && !TruthyId(idParam)))
  {
  }

  /** The comment input is sent only when it holds more than white space and there is a project and a signed-in user. */
  predicate SendsComment(s: Page, session: Option<SessionUser>) {
    Trim(s.newMessage) != "" && s.project.Some? && session.Some?
  }

  /** What the page learns from the comment request. */
  datatype SendAnswer = Sent | Refused | Lost

  /** `{ id: Date.now(), ..., author_name: session.user.name || 'User', is_me: true }` */
  function OwnComment(s: Page, u: SessionUser, stamp: int, now: int): CommentView {
    CommentView(stamp, s.newMessage, now, Some(if TruthyText(u.name) then u.name.value else "User"), u.role, true)
  }

  /** `handleSendMessage`: a delivered comment goes on top, marked as the user's own, and the input is cleared. */
  function HandleSend(s: Page, session: Option<SessionUser>, answer: SendAnswer, stamp: int, now: int): (r: Page)
    ensures !SendsComment(s, session) || answer != Sent ==> r == s
    ensures SendsComment(s, session) && answer == Sent ==>
      |r.comments| == |s.comments| + 1 && r.comments[1..] == s.comments
      && r.comments[0].isMe && r.comments[0].message == s.newMessage && r.newMessage == ""
  {
    if SendsComment(s, session) && answer == Sent then
      s.(comments := [OwnComment(s, session.value, stamp, now)] + s.comments, newMessage := "")
    else s
  }

  /** The answer the page draws from the comment handler's reply. */
  function SendAnswerOf(r: Reply): SendAnswer {
    if 200 <= r.status < 300 then Sent else Refused
  }

  /**
    Sending from the page: the handler accepts every comment the page sends
    for a project with a non-zero id, so the new comment appears exactly
    when the database is reachable, and then it is stored as typed.
   */
  lemma SendEndToEnd(s: Page, session: Option<SessionUser>, db: Db, stamp: int, now: int, dbDown: bool)
    requires SendsComment(s, session) && s.project.value.id != 0
    ensures var reply := PostComment("POST", session, Some(s.project.value.id), Some(s.newMessage), db, now, dbDown);
      var after := HandleSend(s, session, SendAnswerOf(reply), stamp, now);
      (reply.status == 200 <==> !dbDown)
      && (after.comments == s.comments <==> dbDown)
  {
    var reply := PostComment("POST", session, Some(s.project.value.id), Some(s.newMessage), db, now, dbDown);
    var after := HandleSend(s, session, SendAnswerOf(reply), stamp, now);
    if !dbDown {
      assert |after.comments| == |s.comments| + 1;
    }
  }

  /** `project.content ? project.content.replace(/\\n/g, '\n') : ''` */
  function FormatContent(content: Option<string>): (r: string)
    ensures !TruthyText(content) ==> r == ""
    ensures !HasEscapePair(r)
  {
    if TruthyText(content) then
      UnescapeLeavesNoPair(content.value);
      UnescapeNewlines(content.value)
    else ""
  }

  /** Content stored with its line breaks written as backslash-`n` pairs is shown with the line breaks. */
  lemma FormatContentRestoresLines(text: string)
    requires text != "" && !HasEscapePair(text)
    ensures FormatContent(Some(EscapeNewlines(text))) == text
  {
    UnescapeEscape(text);
  }

  /** `msg.author_role === 'admin' ? 'Admin' : 'Kunde'` */
  function RoleLabel(role: Option<string>): string {
    if role == Some("admin") then "Admin" else "Kunde"
  }

  /** A fetched comment is labelled as the admin's exactly when its author's role is admin. */
  lemma RoleLabelOfComment(db: Db, pid: int, me: int, v: CommentView)
    requires ShownView(db, pid, me, v)
    ensures RoleLabel(v.authorRole) == "Admin" <==> db.users[db.comments[v.id].authorId].role == "admin"
    ensures RoleLabel(v.authorRole) in {"Admin", "Kunde"}
  {
    ShownViewFields(db, pid, me, v);
  }
}
