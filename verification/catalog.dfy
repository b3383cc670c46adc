/**
  The course store behind the admin panel and the app simulator: the
  `courses`, `course_sessions` and `bookings` tables as finite maps from row
  id to row, the referential integrity the deletion guards protect, and the
  read queries the panels issue.
 */
module Catalog {
  import opened Sorting

  /** A row of `courses`. */
  datatype Course = Course(title: string, description: string, durationMin: int, imageUrl: string)

  /** A row of `course_sessions`; `start` is an instant in minutes since the epoch (UTC). */
  datatype CourseSession = CourseSession(courseId: int, start: int, maxParticipants: int)

  /** A row of `bookings`; only the session it reserves matters here. */
  datatype Booking = Booking(sessionId: int)

  datatype Store = Store(
    courses: map<int, Course>,
    sessions: map<int, CourseSession>,
    bookings: map<int, Booking>)

  /** Every session's course exists. */
  predicate SessionsHaveCourses(st: Store) {
    forall s :: s in st.sessions ==> st.sessions[s].courseId in st.courses
  }

  /** Every booking's session exists. */
  predicate BookingsHaveSessions(st: Store) {
    forall b :: b in st.bookings ==> st.bookings[b].sessionId in st.sessions
  }

  /** Referential integrity of the three tables. */
  predicate Consistent(st: Store) {
    SessionsHaveCourses(st) && BookingsHaveSessions(st)
  }

  /** `from('course_sessions').select('id').eq('course_id', courseId)` */
  function SessionIdsOf(st: Store, courseId: int): (ids: set<int>)
    ensures forall s :: s in ids <==> s in st.sessions && st.sessions[s].courseId == courseId
  {
    set s | s in st.sessions && st.sessions[s].courseId == courseId
  }

  /** `from('bookings').select('id').eq('session_id', sessionId)` */
  function BookingIdsOf(st: Store, sessionId: int): (ids: set<int>)
    ensures forall b :: b in ids <==> b in st.bookings && st.bookings[b].sessionId == sessionId
  {
    set b | b in st.bookings && st.bookings[b].sessionId == sessionId
  }

  /** A session as nested under its course by `course_sessions(id, start_time, max_participants, bookings(count))`. */
  datatype SessionSummary = SessionSummary(id: int, start: int, maxParticipants: int, bookings: seq<nat>)

  /** A course as listed by `fetchCourses`, with its nested sessions. */
  datatype CourseListing = CourseListing(id: int, course: Course, sessions: seq<SessionSummary>)

  /** A session row with its id, as `fetchSessionsForManager` returns it. */
  datatype SessionRow = SessionRow(id: int, session: CourseSession)

  function Summary(st: Store, sid: int): SessionSummary
    requires sid in st.sessions
  {
    var s := st.sessions[sid];
    SessionSummary(sid, s.start, s.maxParticipants, [|BookingIdsOf(st, sid)|])
  }

  /** `fetchCourses`' nested `course_sessions` of one course, by ascending id. */
  function NestedSessions(st: Store, courseId: int): (r: seq<SessionSummary>)
    ensures |r| == |SessionIdsOf(st, courseId)|
  {
    var ids := Ascending(SessionIdsOf(st, courseId));
    seq(|ids|, i requires 0 <= i < |ids| => Summary(st, ids[i]))
  }

  /** Each nested session is a session of that course, carrying its start, capacity and booking count. */
  lemma NestedSessionsSound(st: Store, courseId: int)
    ensures forall i :: 0 <= i < |NestedSessions(st, courseId)| ==>
      var r := NestedSessions(st, courseId)[i];
      r.id in st.sessions && st.sessions[r.id].courseId == courseId
      && r.start == st.sessions[r.id].start
      && r.maxParticipants == st.sessions[r.id].maxParticipants
      && r.bookings == [|BookingIdsOf(st, r.id)|]
  {
    var ids := Ascending(SessionIdsOf(st, courseId));
    assert forall i :: 0 <= i < |ids| ==> ids[i] in SessionIdsOf(st, courseId);
  }

  /** Every session of the course is nested under it, once, in ascending id order. */
  lemma NestedSessionsComplete(st: Store, courseId: int)
    ensures forall s :: s in st.sessions && st.sessions[s].courseId == courseId ==>
      exists i :: 0 <= i < |NestedSessions(st, courseId)| && NestedSessions(st, courseId)[i].id == s
    ensures forall i, j :: 0 <= i < j < |NestedSessions(st, courseId)| ==>
      NestedSessions(st, courseId)[i].id < NestedSessions(st, courseId)[j].id
  {
    var ids := Ascending(SessionIdsOf(st, courseId));
    var r := NestedSessions(st, courseId);
    forall s | s in st.sessions && st.sessions[s].courseId == courseId
      ensures exists i :: 0 <= i < |r| && r[i].id == s
    {
      assert s in SessionIdsOf(st, courseId);
      var i := IndexOf(ids, s);
      assert r[i].id == s;
    }
  }

  /** `fetchCourses`: `courses` ordered by id, each with its nested sessions. */
  function ListCourses(st: Store): (r: seq<CourseListing>)
    ensures |r| == |st.courses|
  {
    var ids := Ascending(st.courses.Keys);
    seq(|ids|, i requires 0 <= i < |ids| => CourseListing(ids[i], st.courses[ids[i]], NestedSessions(st, ids[i])))
  }

  /** Each listed row is a stored course with its own nested sessions, in ascending id order. */
  lemma ListCoursesSound(st: Store)
    ensures forall i :: 0 <= i < |ListCourses(st)| ==>
      var row := ListCourses(st)[i];
      row.id in st.courses && row.course == st.courses[row.id] && row.sessions == NestedSessions(st, row.id)
    ensures forall i, j :: 0 <= i < j < |ListCourses(st)| ==> ListCourses(st)[i].id < ListCourses(st)[j].id
  {
  }

  /** Every stored course is listed. */
  lemma ListCoursesComplete(st: Store, c: int)
    requires c in st.courses
    ensures exists i :: 0 <= i < |ListCourses(st)| && ListCourses(st)[i].id == c
  {
    var ids := Ascending(st.courses.Keys);
    assert c in ids;
    var i := IndexOf(ids, c);
    assert ListCourses(st)[i].id == c;
  }

  /** The rows of one course's sessions, by ascending id. */
  function SessionRowsOf(st: Store, courseId: int): (rows: seq<SessionRow>)
    ensures forall i :: 0 <= i < |rows| ==>
      rows[i].id in st.sessions && rows[i].session == st.sessions[rows[i].id] && rows[i].session.courseId == courseId
  {
    var ids := Ascending(SessionIdsOf(st, courseId));
    seq(|ids|, i requires 0 <= i < |ids| => SessionRow(ids[i], st.sessions[ids[i]]))
  }

  lemma SessionRowsOfComplete(st: Store, courseId: int, s: int)
    requires s in st.sessions && st.sessions[s].courseId == courseId
    ensures SessionRow(s, st.sessions[s]) in SessionRowsOf(st, courseId)
  {
    var ids := Ascending(SessionIdsOf(st, courseId));
    assert s in SessionIdsOf(st, courseId);
    assert s in ids;
    var i := IndexOf(ids, s);
    assert SessionRowsOf(st, courseId)[i] == SessionRow(s, st.sessions[s]);
  }

  function StartOf(row: SessionRow): int {
    row.session.start
  }

  /** `fetchSessionsForManager(courseId)`: the course's sessions ordered by start time. */
  function ManagerList(st: Store, courseId: int): (r: seq<SessionRow>)
    ensures SortedBy(r, StartOf)
    ensures multiset(r) == multiset(SessionRowsOf(st, courseId))
  {
    SortBy(SessionRowsOf(st, courseId), StartOf)
  }

  /** The manager lists exactly the course's sessions, each with its stored row. */
  lemma ManagerListSpec(st: Store, courseId: int)
    ensures forall row: SessionRow :: row in ManagerList(st, courseId) <==>
      row.id in st.sessions && row.session == st.sessions[row.id] && row.session.courseId == courseId
  {
    var rows := SessionRowsOf(st, courseId);
    SortByMembers(rows, StartOf);
    forall row: SessionRow | row.id in st.sessions && row.session == st.sessions[row.id] && row.session.courseId == courseId
      ensures row in rows
    {
      SessionRowsOfComplete(st, courseId, row.id);
    }
  }
}
