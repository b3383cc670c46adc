/**
  The customer portal's API handlers: project details with its view-mode
  selection and comment tagging, posting a comment, and registration. The
  SQL database is the `Db` value; `dbDown` makes every query of a request
  fail, which the handlers answer with 500.
 */
module Portal {
  import opened Wrappers
  import opened Text
  import opened Sorting
  import opened Auth

  /** A row of `users`. */
  datatype User = User(username: string, passwordHash: string, role: string, firstName: Option<string>, lastName: Option<string>)

  /** A row of `projects`; `createdAt` is an instant, `ownerId` the `user_id`. */
  datatype Project = Project(title: string, content: Option<string>, status: string, createdAt: int, ownerId: int)

  /** A row of `project_comments`. */
  datatype ProjectComment = ProjectComment(projectId: int, authorId: int, message: string, createdAt: int)

  datatype Db = Db(users: map<int, User>, projects: map<int, Project>, comments: map<int, ProjectComment>)

  // ---------------------------------------------------------------- GET /api/projects/details

  datatype ViewMode = ProjectDetail | AdminList

  datatype ProjectRecord = ProjectRecord(id: int, project: Project)

  /** A row of the admin overview. */
  datatype ProjectSummary = ProjectSummary(id: int, title: string, status: string, createdAt: int, clientName: Option<string>)

  /** A comment as the page receives it. */
  datatype CommentView = CommentView(id: int, message: string, createdAt: int, authorName: Option<string>, authorRole: Option<string>, isMe: bool)

  datatype DetailsReply =
    | DetailsOk(viewMode: ViewMode, project: Option<ProjectRecord>, projectsList: seq<ProjectSummary>, comments: seq<CommentView>)
    | DetailsError

  /** `u.first_name || ' ' || u.last_name`: SQL concatenation is NULL when either name is. */
  function ClientName(u: User): Option<string> {
    if u.firstName.Some? && u.lastName.Some? then Some(u.firstName.value + " " + u.lastName.value) else None
  }

  /** `CASE WHEN u.last_name IS NOT NULL THEN u.first_name || ' ' || u.last_name ELSE u.username END` */
  function AuthorName(u: User): (r: Option<string>)
    ensures u.lastName.None? ==> r == Some(u.username)
    ensures u.lastName.Some? ==> r == ClientName(u)
  {
    if u.lastName.Some? then ClientName(u) else Some(u.username)
  }

  /** Project `p` exists and its owner is a stored user, so the join finds it. */
  predicate HasOwner(db: Db, p: int) {
    p in db.projects && db.projects[p].ownerId in db.users
  }

  /** The ids of the projects the overview's join yields. */
  function JoinedProjectIds(db: Db): (ids: set<int>)
    ensures forall p :: p in ids <==> HasOwner(db, p)
  {
    set p | p in db.projects && HasOwner(db, p)
  }

  function SummaryOf(db: Db, p: int): ProjectSummary
    requires HasOwner(db, p)
  {
    var pr := db.projects[p];
    ProjectSummary(p, pr.title, pr.status, pr.createdAt, ClientName(db.users[pr.ownerId]))
  }

  /** Sorting by this key ascending orders by creation time descending. */
  function SummaryAge(s: ProjectSummary): int {
    -s.createdAt
  }

  /** The joined rows by ascending project id, before ordering. */
  function SummaryRows(db: Db): (rows: seq<ProjectSummary>)
    ensures forall k :: 0 <= k < |rows| ==> ListedSummary(db, rows[k])
  {
    var ids := Ascending(JoinedProjectIds(db));
    assert forall i :: 0 <= i < |ids| ==> ids[i] in JoinedProjectIds(db);
    seq(|ids|, i requires 0 <= i < |ids| => SummaryOf(db, ids[i]))
  }

  /** The admin overview: `projects JOIN users ... ORDER BY p.created_at DESC`; rows created at the same instant come by ascending id. */
  function AdminProjects(db: Db): seq<ProjectSummary> {
    SortBy(SummaryRows(db), SummaryAge)
  }

  /** `s` is the overview row of a stored project whose owner exists. */
  predicate ListedSummary(db: Db, s: ProjectSummary) {
    HasOwner(db, s.id) && s == SummaryOf(db, s.id)
  }

  /** The overview is ordered newest first. */
  lemma AdminProjectsNewestFirst(db: Db)
    ensures forall i, j :: 0 <= i < j < |AdminProjects(db)| ==> AdminProjects(db)[i].createdAt >= AdminProjects(db)[j].createdAt
  {
    var r := AdminProjects(db);
    forall i, j | 0 <= i < j < |r|
      ensures r[i].createdAt >= r[j].createdAt
    {
      assert SummaryAge(r[i]) <= SummaryAge(r[j]);
    }
  }

  /** Every overview row is a project whose owner exists, with the owner's name. */
  lemma AdminProjectsSound(db: Db)
    ensures forall k :: 0 <= k < |AdminProjects(db)| ==> ListedSummary(db, AdminProjects(db)[k])
  {
    var rows := SummaryRows(db);
    var r := SortBy(rows, SummaryAge);
    SortByMembers(rows, SummaryAge);
    forall k | 0 <= k < |r|
      ensures ListedSummary(db, r[k])
    {
      assert r[k] in rows;
    }
  }

  /** Every project whose owner exists is in the overview. */
  lemma AdminProjectsComplete(db: Db, p: int)
    requires p in db.projects && db.projects[p].ownerId in db.users
    ensures SummaryOf(db, p) in AdminProjects(db)
  {
    var ids := Ascending(JoinedProjectIds(db));
    var rows := SummaryRows(db);
    SortByMembers(rows, SummaryAge);
    assert p in JoinedProjectIds(db);
    var i := IndexOf(ids, p);
    assert rows[i] == SummaryOf(db, p);
  }

  /** `SELECT * FROM projects WHERE id = ...` */
  function ProjectById(db: Db, id: int): (r: Option<ProjectRecord>)
    ensures r.Some? <==> id in db.projects
    ensures r.Some? ==> r.value == ProjectRecord(id, db.projects[id])
  {
    if id in db.projects then Some(ProjectRecord(id, db.projects[id])) else None
  }

  /** The ids of the projects user `uid` owns. */
  function ProjectIdsOf(db: Db, uid: int): (ids: set<int>)
    ensures forall p :: p in ids <==> p in db.projects && db.projects[p].ownerId == uid
  {
    set p | p in db.projects && db.projects[p].ownerId == uid
  }

  /** `SELECT * FROM projects WHERE user_id = ... LIMIT 1`; of several, the lowest id. */
  function FirstProjectOf(db: Db, uid: int): (r: Option<ProjectRecord>)
    ensures r.Some? ==> r.value.id in db.projects && r.value.project == db.projects[r.value.id] && r.value.project.ownerId == uid
  {
    var ids := Ascending(ProjectIdsOf(db, uid));
    if |ids| > 0 then
      assert ids[0] in ProjectIdsOf(db, uid);
      Some(ProjectRecord(ids[0], db.projects[ids[0]]))
    else None
  }

  /** A user gets a project exactly when they own one, and then the one with the lowest id. */
  lemma FirstProjectOfSpec(db: Db, uid: int)
    ensures FirstProjectOf(db, uid).Some? <==> exists p :: p in db.projects && db.projects[p].ownerId == uid
    ensures FirstProjectOf(db, uid).Some? ==>
      forall p :: p in db.projects && db.projects[p].ownerId == uid ==> FirstProjectOf(db, uid).value.id <= p
  {
    var ids := Ascending(ProjectIdsOf(db, uid));
    forall p | p in db.projects && db.projects[p].ownerId == uid
      ensures |ids| > 0 && ids[0] <= p
    {
      assert p in ProjectIdsOf(db, uid);
      var i := IndexOf(ids, p);
      assert i == 0 || ids[0] < ids[i];
    }
  }

  /** Comment `c` is on project `pid` and its author is a stored user, so the join finds it. */
  predicate ShownComment(db: Db, pid: int, c: int) {
    c in db.comments && db.comments[c].projectId == pid && db.comments[c].authorId in db.users
  }

  /** The ids of the comments the comments query yields for project `pid`. */
  function ShownCommentIds(db: Db, pid: int): (ids: set<int>)
    ensures forall c :: c in ids <==> ShownComment(db, pid, c)
  {
    set c | c in db.comments && ShownComment(db, pid, c)
  }

  function ViewOf(db: Db, cid: int, me: int): CommentView
    requires cid in db.comments && db.comments[cid].authorId in db.users
  {
    var c := db.comments[cid];
    var u := db.users[c.authorId];
    CommentView(cid, c.message, c.createdAt, AuthorName(u), Some(u.role), c.authorId == me)
  }

  function CommentAge(v: CommentView): int {
    -v.createdAt
  }

  /** The joined comment rows by ascending id, before ordering. */
  function CommentRows(db: Db, pid: int, me: int): (views: seq<CommentView>)
    ensures forall k :: 0 <= k < |views| ==> ShownView(db, pid, me, views[k])
  {
    var ids := Ascending(ShownCommentIds(db, pid));
    assert forall i :: 0 <= i < |ids| ==> ids[i] in ShownCommentIds(db, pid);
    seq(|ids|, i requires 0 <= i < |ids| => ViewOf(db, ids[i], me))
  }

  /** The comments query and its mapping: the project's comments joined with their authors, newest first. */
  function CommentsOf(db: Db, pid: int, me: int): seq<CommentView> {
    SortBy(CommentRows(db, pid, me), CommentAge)
  }

  /** `v` is the view of a stored comment on project `pid` whose author exists, as seen by user `me`. */
  predicate ShownView(db: Db, pid: int, me: int, v: CommentView) {
    ShownComment(db, pid, v.id) && v == ViewOf(db, v.id, me)
  }

  /** Each comment shown is a stored comment on the project whose author exists. */
  lemma CommentsOfSound(db: Db, pid: int, me: int)
    ensures forall k :: 0 <= k < |CommentsOf(db, pid, me)| ==> ShownView(db, pid, me, CommentsOf(db, pid, me)[k])
  {
    var views := CommentRows(db, pid, me);
    var r := SortBy(views, CommentAge);
    SortByMembers(views, CommentAge);
    forall k | 0 <= k < |r|
      ensures ShownView(db, pid, me, r[k])
    {
      assert r[k] in views;
    }
  }

  /** A shown comment carries its stored message and its author's name and role, and is the caller's own exactly when the caller wrote it. */
  lemma ShownViewFields(db: Db, pid: int, me: int, v: CommentView)
    requires ShownView(db, pid, me, v)
    ensures var c := db.comments[v.id];
      c.projectId == pid && v.message == c.message && v.createdAt == c.createdAt
      && v.authorName == AuthorName(db.users[c.authorId]) && v.authorRole == Some(db.users[c.authorId].role)
      && (v.isMe <==> c.authorId == me)
  {
  }

  /** Comments come newest first. */
  lemma CommentsOfNewestFirst(db: Db, pid: int, me: int)
    ensures forall i, j :: 0 <= i < j < |CommentsOf(db, pid, me)| ==>
      CommentsOf(db, pid, me)[i].createdAt >= CommentsOf(db, pid, me)[j].createdAt
  {
    var r := CommentsOf(db, pid, me);
    forall i, j | 0 <= i < j < |r|
      ensures r[i].createdAt >= r[j].createdAt
    {
      assert CommentAge(r[i]) <= CommentAge(r[j]);
    }
  }

  /** Every comment on the project whose author exists is shown. */
  lemma CommentsOfComplete(db: Db, pid: int, me: int, cid: int)
    requires cid in db.comments && db.comments[cid].projectId == pid && db.comments[cid].authorId in db.users
    ensures ViewOf(db, cid, me) in CommentsOf(db, pid, me)
  {
    var ids := Ascending(ShownCommentIds(db, pid));
    var views := CommentRows(db, pid, me);
    SortByMembers(views, CommentAge);
    assert cid in ShownCommentIds(db, pid);
    var i := IndexOf(ids, cid);
    assert views[i] == ViewOf(db, cid, me);
  }

  /** `session ? Number(session.user.id) : -1` */
  function CurrentUserId(session: Option<SessionUser>): int {
    if session.Some? then session.value.id else -1
  }

  /** The details handler; `idParam` is the `id` query parameter as a number. */
  function Details(session: Option<SessionUser>, idParam: Option<int>, db: Db, dbDown: bool): (r: DetailsReply)
    ensures r.DetailsError? <==> dbDown && (TruthyId(idParam) || session.Some?)
    ensures r.DetailsOk? ==> (r.viewMode == AdminList <==> IsAdmin(session) && !TruthyId(idParam))
    ensures r.DetailsOk? && r.viewMode == AdminList ==> r.project.None? && r.comments == [] && r.projectsList == AdminProjects(db)
    ensures r.DetailsOk? && r.viewMode == ProjectDetail ==> r.projectsList == []
    ensures r.DetailsOk? && r.project.None? ==> r.comments == []
    ensures r.DetailsOk? && r.project.Some? ==> r.comments == CommentsOf(db, r.project.value.id, CurrentUserId(session))
    ensures r.DetailsOk? && TruthyId(idParam) ==>
      (r.project.Some? <==> idParam.value in db.projects)
      && (r.project.Some? ==> r.project.value == ProjectRecord(idParam.value, db.projects[idParam.value]))
    ensures session.None? && !TruthyId(idParam) ==> r == DetailsOk(ProjectDetail, None, [], [])
  {
    if IsAdmin(session) && !TruthyId(idParam) then
      if dbDown then DetailsError else DetailsOk(AdminList, None, AdminProjects(db), [])
    else if dbDown && (TruthyId(idParam) || session.Some?) then DetailsError
    else
      var project :=
        if TruthyId(idParam) then ProjectById(db, idParam.value)
        else if session.Some? then FirstProjectOf(db, session.value.id)
        else None;
      var comments := if project.Some? then CommentsOf(db, project.value.id, CurrentUserId(session)) else [];
      DetailsOk(ProjectDetail, project, [], comments)
  }

  /** Without an id, a signed-in customer sees the project they own, if any. */
  lemma DetailsOwnProject(u: SessionUser, db: Db)
    requires !IsAdmin(Some(u))
    ensures var r := Details(Some(u), None, db, false);
      r.DetailsOk? && r.viewMode == ProjectDetail
      && (r.project.Some? <==> exists p :: p in db.projects && db.projects[p].ownerId == u.id)
      && (r.project.Some? ==> db.projects[r.project.value.id].ownerId == u.id)
  {
    FirstProjectOfSpec(db, u.id);
  }

  /** An anonymous caller never has a comment tagged as their own, as long as no user has the id -1. */
  lemma AnonymousNeverMe(idParam: Option<int>, db: Db)
    requires -1 !in db.users
    ensures var r := Details(None, idParam, db, false);
      r.DetailsOk? && forall k :: 0 <= k < |r.comments| ==> !r.comments[k].isMe
  {
    var r := Details(None, idParam, db, false);
    if r.project.Some? {
      CommentsOfSound(db, r.project.value.id, -1);
      forall k | 0 <= k < |r.comments|
        ensures !r.comments[k].isMe
      {
        ShownViewFields(db, r.project.value.id, -1, r.comments[k]);
      }
    }
  }

  // ---------------------------------------------------------------- POST /api/projects/comment and /api/auth/register

  /** A status code with the body's `message`, and the database afterwards. */
  datatype Reply = Reply(status: int, message: Option<string>, db: Db)

  /** The comment handler; `projectId` and `message` are the body fields. */
  function PostComment(httpMethod: string, session: Option<SessionUser>, projectId: Option<int>, message: Option<string>,
                       db: Db, now: int, dbDown: bool): (r: Reply)
    ensures r.status in {405, 401, 400, 500, 200}
    ensures httpMethod != "POST" ==> r.status == 405
    ensures httpMethod == "POST" && session.None? ==> r.status == 401
    ensures r.status == 400 <==> httpMethod == "POST" && session.Some? && (!TruthyId(projectId) || message.None? || Trim(message.value) == "")
    ensures r.status == 200 <==> httpMethod == "POST" && session.Some? && TruthyId(projectId) && message.Some? && Trim(message.value) != "" && !dbDown
    ensures r.status != 200 ==> r.db == db
    ensures r.db.users == db.users && r.db.projects == db.projects
  {
    if httpMethod != "POST" then Reply(405, Some("Method not allowed"), db)
    else if session.None? then Reply(401, Some("Unauthorized"), db)
    else if !TruthyId(projectId) || !TruthyText(message) || Trim(message.value) == "" then Reply(400, Some("Missing data"), db)
    else if dbDown then Reply(500, Some("Internal Server Error"), db)
    else
      var row := ProjectComment(projectId.value, session.value.id, message.value, now);
      Reply(200, None, db.(comments := db.comments[FreshKey(db.comments.Keys) := row]))
  }

  /** A stored comment: exactly one new row, authored by the caller, holding the message as sent, untrimmed. */
  lemma PostCommentInserts(httpMethod: string, session: Option<SessionUser>, projectId: Option<int>, message: Option<string>, db: Db, now: int)
    requires PostComment(httpMethod, session, projectId, message, db, now, false).status == 200
    ensures var after := PostComment(httpMethod, session, projectId, message, db, now, false).db.comments;
      |after| == |db.comments| + 1
      && exists k :: (k !in db.comments && after.Keys == db.comments.Keys + {k}
        && after[k] == ProjectComment(projectId.value, session.value.id, message.value, now)
        && forall c :: c in db.comments ==> after[c] == db.comments[c])
  {
    assert TruthyText(message) && Trim(message.value) != "";
    var k := FreshKey(db.comments.Keys);
    var row := ProjectComment(projectId.value, session.value.id, message.value, now);
    AddRow(db.comments, k, row);
  }

  /** Method, session and body are refused before the database is touched: these replies do not depend on it being reachable. */
  lemma PostCommentChecksFirst(httpMethod: string, session: Option<SessionUser>, projectId: Option<int>, message: Option<string>, db: Db, now: int)
    requires PostComment(httpMethod, session, projectId, message, db, now, true).status in {405, 401, 400}
    ensures PostComment(httpMethod, session, projectId, message, db, now, true) == PostComment(httpMethod, session, projectId, message, db, now, false)
  {
  }

  /** `SELECT id FROM users WHERE username = ... LIMIT 1` finds a row. */
  predicate UsernameTaken(db: Db, name: string) {
    exists u :: u in db.users && db.users[u].username == name
  }

  /** No two users share a username. */
  predicate UniqueUsernames(db: Db) {
    forall a, b :: a in db.users && b in db.users && a != b ==> db.users[a].username != db.users[b].username
  }

  const MinPasswordLength := 6

  /** The registration handler; `hash` stands for the salted password hash. */
  function Register(httpMethod: string, username: Option<string>, password: Option<string>, db: Db,
                    hash: string -> string, dbDown: bool): (r: Reply)
    ensures r.status in {405, 400, 500, 409, 201}
    ensures httpMethod != "POST" ==> r.status == 405
    ensures r.status == 400 <==> httpMethod == "POST" && (!TruthyText(username) || !TruthyText(password) || |password.value| < MinPasswordLength)
    ensures r.status == 409 <==> (httpMethod == "POST" && TruthyText(username) && TruthyText(password)
      && |password.value| >= MinPasswordLength && !dbDown && UsernameTaken(db, username.value))
    ensures r.status == 201 <==> (httpMethod == "POST" && TruthyText(username) && TruthyText(password)
      && |password.value| >= MinPasswordLength && !dbDown && !UsernameTaken(db, username.value))
    ensures r.status != 201 ==> r.db == db
    ensures r.db.projects == db.projects && r.db.comments == db.comments
  {
    if httpMethod != "POST" then Reply(405, Some("Method not allowed"), db)
    else if !TruthyText(username) || !TruthyText(password) then Reply(400, Some("Benutzername und Passwort sind erforderlich."), db)
    else if |password.value| < MinPasswordLength then Reply(400, Some("Das Passwort muss mindestens 6 Zeichen lang sein."), db)
    else if dbDown then Reply(500, Some("Interner Serverfehler."), db)
    else if UsernameTaken(db, username.value) then Reply(409, Some("Dieser Benutzername ist bereits vergeben."), db)
    else
      var row := User(username.value, hash(password.value), "client", Some(username.value), None);
      Reply(201, None, db.(users := db.users[FreshKey(db.users.Keys) := row]))
  }

  /** A registration adds exactly one customer, named after the username and holding the hash of the password. */
  lemma RegisterInserts(httpMethod: string, username: Option<string>, password: Option<string>, db: Db, hash: string -> string)
    requires Register(httpMethod, username, password, db, hash, false).status == 201
    ensures var after := Register(httpMethod, username, password, db, hash, false).db.users;
      |after| == |db.users| + 1
      && exists k :: (k !in db.users && after.Keys == db.users.Keys + {k}
        && after[k] == User(username.value, hash(password.value), "client", Some(username.value), None)
        && forall u :: u in db.users ==> after[u] == db.users[u])
  {
    var k := FreshKey(db.users.Keys);
    AddRow(db.users, k, User(username.value, hash(password.value), "client", Some(username.value), None));
  }

  /** Registration never creates a second user with a taken username. */
  lemma RegisterKeepsUsernamesUnique(httpMethod: string, username: Option<string>, password: Option<string>, db: Db, hash: string -> string, dbDown: bool)
    requires UniqueUsernames(db)
    ensures UniqueUsernames(Register(httpMethod, username, password, db, hash, dbDown).db)
  {
    var r := Register(httpMethod, username, password, db, hash, dbDown);
    if r.status == 201 {
      var k := FreshKey(db.users.Keys);
      forall a, b | a in r.db.users && b in r.db.users && a != b
        ensures r.db.users[a].username != r.db.users[b].username
      {
        if a == k {
          assert b in db.users;
        } else if b == k {
          assert a in db.users;
        }
      }
    }
  }

  /** Registering the same username twice: the second attempt is refused with 409. */
  lemma RegisterTwiceConflicts(username: string, password: string, password2: string, db: Db, hash: string -> string)
    requires Register("POST", Some(username), Some(password), db, hash, false).status == 201
    requires |password2| >= MinPasswordLength
    ensures var first := Register("POST", Some(username), Some(password), db, hash, false);
      Register("POST", Some(username), Some(password2), first.db, hash, false).status == 409
  {
    var k := FreshKey(db.users.Keys);
    var first := Register("POST", Some(username), Some(password), db, hash, false);
    assert first.db.users[k].username == username;
  }

  /** Method, presence and length are checked before the database is touched. */
  lemma RegisterChecksFirst(httpMethod: string, username: Option<string>, password: Option<string>, db: Db, db2: Db, hash: string -> string)
    requires Register(httpMethod, username, password, db, hash, true).status in {405, 400}
    ensures Register(httpMethod, username, password, db2, hash, false).status == Register(httpMethod, username, password, db, hash, true).status
    ensures Register(httpMethod, username, password, db2, hash, false).message == Register(httpMethod, username, password, db, hash, true).message
  {
  }
}
