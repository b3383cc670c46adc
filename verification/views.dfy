/**
  The course table both admin panels render from `fetchCourses`: per course
  the next upcoming session, how many more follow, the seats of the next
  session and the warning for a course without any session.
 */
module Views {
  import opened Wrappers
  import opened Sorting
  import opened Catalog

  /** `bookings?.[0]?.count || 0`: the aggregated booking count, 0 when the aggregate is missing. */
  function BookedCount(agg: seq<nat>): nat {
    if |agg| > 0 then agg[0] else 0
  }

  /** `booked >= max`: a session is shown as full once its bookings reach its capacity. */
  predicate IsFull(booked: nat, maxParticipants: int) {
    booked >= maxParticipants
  }

  function SummaryStart(s: SessionSummary): int {
    s.start
  }

  /** `new Date(s.start_time) >= now` */
  function UpcomingTest(now: int): SessionSummary -> bool {
    (s: SessionSummary) => s.start >= now
  }

  /** The number of sessions that start at or after `now`, counted independently of any sort. */
  function CountUpcoming(ss: seq<SessionSummary>, now: int): nat {
    if |ss| == 0 then 0
    else (if ss[0].start >= now then 1 else 0) + CountUpcoming(ss[1..], now)
  }

  /** `futureSessions`: the sessions starting at or after `now`, earliest first. */
  function FutureSessions(ss: seq<SessionSummary>, now: int): (r: seq<SessionSummary>)
    ensures SortedBy(r, SummaryStart)
    ensures forall k :: 0 <= k < |r| ==> r[k] in ss && r[k].start >= now
    ensures forall k :: 0 <= k < |ss| && ss[k].start >= now ==> ss[k] in r
  {
    var f := Filter(ss, UpcomingTest(now));
    var r := SortBy(f, SummaryStart);
    FilterMembers(ss, UpcomingTest(now));
    SortByMembers(f, SummaryStart);
    assert forall k :: 0 <= k < |r| ==> r[k] in ss && r[k].start >= now by {
      forall k | 0 <= k < |r|
        ensures r[k] in ss && r[k].start >= now
      {
        assert r[k] in f;
        var j :| 0 <= j < |f| && f[j] == r[k];
      }
    }
    r
  }

  lemma {:induction false} FilterUpcomingCount(ss: seq<SessionSummary>, now: int)
    ensures |Filter(ss, UpcomingTest(now))| == CountUpcoming(ss, now)
  {
    if |ss| > 0 {
      FilterUpcomingCount(ss[1..], now);
    }
  }

  /** There are as many future sessions as sessions that start at or after `now`. */
  lemma FutureSessionsCount(ss: seq<SessionSummary>, now: int)
    ensures |FutureSessions(ss, now)| == CountUpcoming(ss, now)
  {
    FilterUpcomingCount(ss, now);
  }

  /** `futureSessions[0]` */
  function NextSession(ss: seq<SessionSummary>, now: int): Option<SessionSummary> {
    var f := FutureSessions(ss, now);
    if |f| == 0 then None else Some(f[0])
  }

  /** The next session is the earliest session starting at or after `now`; there is none exactly when every session has started. */
  lemma NextSessionSpec(ss: seq<SessionSummary>, now: int)
    ensures NextSession(ss, now).None? <==> forall k :: 0 <= k < |ss| ==> ss[k].start < now
    ensures NextSession(ss, now).Some? ==>
      var n := NextSession(ss, now).value;
      n in ss && n.start >= now
      && forall k :: 0 <= k < |ss| && ss[k].start >= now ==> n.start <= ss[k].start
  {
    var f := FutureSessions(ss, now);
    if |f| > 0 {
      assert f[0] in ss && f[0].start >= now;
      forall k | 0 <= k < |ss| && ss[k].start >= now
        ensures f[0].start <= ss[k].start
      {
        assert ss[k] in f;
        var j :| 0 <= j < |f| && f[j] == ss[k];
        assert j == 0 || SummaryStart(f[0]) <= SummaryStart(f[j]);
      }
    }
  }

  /** `futureSessions.length > 1`: the chip counting the upcoming sessions after the next one. */
  function MoreChip(ss: seq<SessionSummary>, now: int): Option<nat> {
    var f := FutureSessions(ss, now);
    if |f| > 1 then Some(|f| - 1) else None
  }

  /** The chip shows how many upcoming sessions follow the next one, and only when at least one does. */
  lemma MoreChipSpec(ss: seq<SessionSummary>, now: int)
    ensures MoreChip(ss, now) == if CountUpcoming(ss, now) > 1 then Some(CountUpcoming(ss, now) - 1) else None
    ensures MoreChip(ss, now).Some? ==> NextSession(ss, now).Some?
  {
    FutureSessionsCount(ss, now);
  }

  /** The seats cell: booked seats, capacity and whether the session is full. */
  datatype SeatsCell = SeatsCell(booked: nat, maxParticipants: int, full: bool)

  /** One row of the course table. */
  datatype CourseRow = CourseRow(
    id: int,
    title: string,
    warnNoSessions: bool,
    next: Option<SessionSummary>,
    more: Option<nat>,
    seats: Option<SeatsCell>,
    durationMin: int)

  function SeatsOf(s: SessionSummary): SeatsCell {
    var booked := BookedCount(s.bookings);
    SeatsCell(booked, s.maxParticipants, IsFull(booked, s.maxParticipants))
  }

  function RowOf(l: CourseListing, now: int): CourseRow {
    var next := NextSession(l.sessions, now);
    CourseRow(
      l.id, l.course.title, |l.sessions| == 0, next, MoreChip(l.sessions, now),
      if next.Some? then Some(SeatsOf(next.value)) else None,
      l.course.durationMin)
  }

  /** The table body: one row per listed course, in listing order. */
  function CourseTable(st: Store, now: int): (rows: seq<CourseRow>)
    ensures |rows| == |st.courses|
  {
    var ls := ListCourses(st);
    seq(|ls|, i requires 0 <= i < |ls| => RowOf(ls[i], now))
  }

  /** Each row shows a stored course, in ascending id order, warning exactly when the course has no session. */
  lemma CourseTableRows(st: Store, now: int)
    ensures forall i :: 0 <= i < |CourseTable(st, now)| ==>
      var row := CourseTable(st, now)[i];
      row.id in st.courses && row.title == st.courses[row.id].title
      && row.durationMin == st.courses[row.id].durationMin
      && (row.warnNoSessions <==> SessionIdsOf(st, row.id) == {})
    ensures forall i, j :: 0 <= i < j < |CourseTable(st, now)| ==> CourseTable(st, now)[i].id < CourseTable(st, now)[j].id
  {
    ListCoursesSound(st);
  }

  /**
    The next-session cell of a row is the course's earliest stored session
    starting at or after `now`, and is empty exactly when every session of the
    course has started.
   */
  lemma CourseTableNext(st: Store, now: int, i: int)
    requires 0 <= i < |CourseTable(st, now)|
    ensures var row := CourseTable(st, now)[i];
      (row.next.None? <==> forall s :: s in st.sessions && st.sessions[s].courseId == row.id ==> st.sessions[s].start < now)
      && (row.next.Some? ==>
        var n := row.next.value;
        n.id in st.sessions && st.sessions[n.id].courseId == row.id
        && n.start == st.sessions[n.id].start && n.start >= now
        && forall s :: s in st.sessions && st.sessions[s].courseId == row.id && st.sessions[s].start >= now ==>
          n.start <= st.sessions[s].start)
  {
    ListCoursesSound(st);
    var l := ListCourses(st)[i];
    var ss := l.sessions;
    assert ss == NestedSessions(st, l.id);
    NestedSessionsSound(st, l.id);
    NestedSessionsComplete(st, l.id);
    NextSessionSpec(ss, now);
    var next := NextSession(ss, now);
    forall s | s in st.sessions && st.sessions[s].courseId == l.id
      ensures exists k :: 0 <= k < |ss| && ss[k].id == s && ss[k].start == st.sessions[s].start
    {
      var k :| 0 <= k < |ss| && ss[k].id == s;
    }
    if next.Some? {
      var n := next.value;
      var k :| 0 <= k < |ss| && ss[k] == n;
      assert n.id in st.sessions && st.sessions[n.id].courseId == l.id;
    }
  }

  /** The seats cell of a row counts the stored bookings of its next session and shows it full exactly when they reach its capacity. */
  lemma CourseTableSeats(st: Store, now: int, i: int)
    requires 0 <= i < |CourseTable(st, now)|
    ensures var row := CourseTable(st, now)[i];
      (row.seats.Some? <==> row.next.Some?)
      && (row.next.Some? ==>
        var n := row.next.value;
        n.id in st.sessions
        && row.seats.value.booked == |BookingIdsOf(st, n.id)|
        && row.seats.value.maxParticipants == st.sessions[n.id].maxParticipants
        && (row.seats.value.full <==> |BookingIdsOf(st, n.id)| >= st.sessions[n.id].maxParticipants))
  {
    ListCoursesSound(st);
    var l := ListCourses(st)[i];
    NestedSessionsSound(st, l.id);
    NextSessionSpec(l.sessions, now);
    var next := NextSession(l.sessions, now);
    if next.Some? {
      var k :| 0 <= k < |l.sessions| && l.sessions[k] == next.value;
    }
  }
}
