/**
  The course administration panel, in its two copies: the page-local panel
  (which trims titles and refuses a case-insensitive duplicate when creating)
  and the shared component (which has a read-only gate instead). Each
  handler is a transition from the store and the panel state to a `Step`:
  the new store, the new panel state, what the operator is told, and the
  store requests issued, in order.

  A failed store write is the `fail` input; `window.confirm` is the
  `confirmed` input; alerts become `Outcome` values.
 */
module Admin {
  import opened Wrappers
  import opened Text
  import opened Sorting
  import opened Clock
  import opened Catalog

  /** Which copy of the panel runs: the page's own, or the shared component with its read-only flag. */
  datatype Variant = PagePanel | ComponentPanel(readOnly: bool)

  /** `checkAccess()` refuses: only the shared component in read-only mode does. */
  predicate Locked(v: Variant) {
    v.ComponentPanel? && v.readOnly
  }

  /** `editingCourse`: the course dialog's partial course, with the nested sessions of the listed row it was opened from. */
  datatype CourseDraft = CourseDraft(
    id: Option<int>,
    title: Option<string>,
    description: Option<string>,
    durationMin: Option<int>,
    imageUrl: Option<string>,
    nested: seq<SessionSummary>)

  /**
    `sessionForm`: `day` is the date field as a day number (None when the
    field is empty), `minute` the time field as minutes after midnight,
    `seats` the seat field as a number (None when the field is empty).
   */
  datatype SessionForm = SessionForm(id: Option<int>, day: Option<int>, minute: int, seats: Option<int>)

  /** `{ date: '', time: '10:00', seats: '10' }` */
  const BlankForm := SessionForm(None, None, 600, Some(10))

  datatype Panel = Panel(selectedCourse: Option<int>, form: SessionForm, managerOpen: bool, courseDialogOpen: bool)

  /** The store requests a handler issues. */
  datatype Call =
    | FindTitle(title: string)
    | InsertCourseRow
    | UpdateCourseRow(id: int)
    | FindSessionsOf(courseId: int)
    | DeleteCourseRow(id: int)
    | FindBookingsOf(sessionId: int)
    | DeleteSessionRow(id: int)
    | InsertSessionRow(courseId: int)
    | UpdateSessionRow(id: int)
    | FetchSessions(courseId: int)
    | FetchCourses

  datatype Reason = DuplicateTitle | CourseHasSessions | SeatsNotPositive

  /** What the operator sees: nothing, the access alert, a refusal alert, the booking-count alert, an error alert, or success. */
  datatype Outcome = NoOp | Denied | Rejected(reason: Reason) | Conflict(bookings: nat) | Failed | Done

  datatype Step = Step(store: Store, panel: Panel, outcome: Outcome, calls: seq<Call>)

  /** The result of a handler that returns before touching anything. */
  function Stay(st: Store, p: Panel, o: Outcome): Step {
    Step(st, p, o, [])
  }

  // ---------------------------------------------------------------- courses

  /** `ilike('title', t)` finds a row: some course's title equals `t` ignoring case. */
  predicate TitleTaken(st: Store, t: string) {
    exists c :: c in st.courses && EqualsIgnoreCase(st.courses[c].title, t)
  }

  /** The title written with the row: trimmed by the page panel, verbatim by the component. */
  function SavedTitle(v: Variant, raw: string): string {
    if v.PagePanel? then Trim(raw) else raw
  }

  /** An update writes the fields the draft carries and leaves the others as stored. */
  function Merge(c: Course, d: CourseDraft, title: string): Course {
    Course(title, d.description.GetOr(c.description), d.durationMin.GetOr(c.durationMin), d.imageUrl.GetOr(c.imageUrl))
  }

  /** An insert writes the fields the draft carries; the others take the column defaults. */
  function NewCourse(d: CourseDraft, title: string): Course {
    Course(title, d.description.GetOr(""), d.durationMin.GetOr(0), d.imageUrl.GetOr(""))
  }

  function WriteCourse(st: Store, d: CourseDraft, title: string): Store {
    if TruthyId(d.id) then
      if d.id.value in st.courses then st.(courses := st.courses[d.id.value := Merge(st.courses[d.id.value], d, title)])
      else st
    else st.(courses := st.courses[FreshKey(st.courses.Keys) := NewCourse(d, title)])
  }

  /** `handleSaveCourse` */
  function SaveCourse(v: Variant, st: Store, p: Panel, d: CourseDraft, fail: bool): (r: Step)
    ensures Locked(v) ==> r == Stay(st, p, Denied)
    ensures r.outcome == NoOp <==> !Locked(v) && !TruthyText(d.title)
    ensures r.outcome == Rejected(DuplicateTitle) <==>
      v.PagePanel? && TruthyText(d.title) && !TruthyId(d.id) && TitleTaken(st, Trim(d.title.value))
    ensures r.outcome in {NoOp, Denied, Rejected(DuplicateTitle), Done}
    ensures r.outcome in {NoOp, Denied} ==> r.calls == []
    ensures r.outcome == Rejected(DuplicateTitle) ==> r.calls == [FindTitle(Trim(d.title.value))]
    ensures r.outcome != Done ==> r.store == st && r.panel == p
    ensures r.outcome == Done ==> !r.panel.courseDialogOpen && |r.calls| >= 2 && r.calls[|r.calls| - 1] == FetchCourses
    ensures fail ==> r.store == st
    ensures r.store.sessions == st.sessions && r.store.bookings == st.bookings
    ensures st.courses.Keys <= r.store.courses.Keys
  {
    if Locked(v) then Stay(st, p, Denied)
    else if !TruthyText(d.title) then Stay(st, p, NoOp)
    else
      var title := SavedTitle(v, d.title.value);
      var creating := !TruthyId(d.id);
      var check := if v.PagePanel? && creating then [FindTitle(title)] else [];
      if v.PagePanel? && creating && TitleTaken(st, title) then Step(st, p, Rejected(DuplicateTitle), check)
      else
        var write := if creating then InsertCourseRow else UpdateCourseRow(d.id.value);
        Step(if fail then st else WriteCourse(st, d, title), p.(courseDialogOpen := false), Done, check + [write, FetchCourses])
  }

  /** A successful update rewrites only the edited course, keeping every field the draft leaves out. */
  lemma SaveCourseUpdates(v: Variant, st: Store, p: Panel, d: CourseDraft)
    requires TruthyId(d.id) && d.id.value in st.courses
    requires SaveCourse(v, st, p, d, false).outcome == Done
    ensures var after := SaveCourse(v, st, p, d, false).store.courses;
      var before := st.courses[d.id.value];
      var saved := after[d.id.value];
      after.Keys == st.courses.Keys
      && saved.title == SavedTitle(v, d.title.value)
      && (d.description.Some? ==> saved.description == d.description.value)
      && (d.description.None? ==> saved.description == before.description)
      && (d.durationMin.Some? ==> saved.durationMin == d.durationMin.value)
      && (d.durationMin.None? ==> saved.durationMin == before.durationMin)
      && (d.imageUrl.Some? ==> saved.imageUrl == d.imageUrl.value)
      && (d.imageUrl.None? ==> saved.imageUrl == before.imageUrl)
      && forall c :: c in st.courses && c != d.id.value ==> after[c] == st.courses[c]
  {
  }

  /** A successful create adds exactly one course under a key that was free, with the saved title. */
  lemma SaveCourseInserts(v: Variant, st: Store, p: Panel, d: CourseDraft)
    requires !TruthyId(d.id)
    requires SaveCourse(v, st, p, d, false).outcome == Done
    ensures var after := SaveCourse(v, st, p, d, false).store.courses;
      |after| == |st.courses| + 1
      && exists k :: (k !in st.courses && after.Keys == st.courses.Keys + {k}
        && after[k].title == SavedTitle(v, d.title.value)
        && forall c :: c in st.courses ==> after[c] == st.courses[c])
  {
    var title := SavedTitle(v, d.title.value);
    assert SaveCourse(v, st, p, d, false).store == WriteCourse(st, d, title);
    InsertCourseAddsOne(st, d, title);
  }

  lemma InsertCourseAddsOne(st: Store, d: CourseDraft, title: string)
    requires !TruthyId(d.id)
    ensures var after := WriteCourse(st, d, title).courses;
      |after| == |st.courses| + 1
      && exists k :: (k !in st.courses && after.Keys == st.courses.Keys + {k}
        && after[k].title == title
        && forall c :: c in st.courses ==> after[c] == st.courses[c])
  {
    AddRow(st.courses, FreshKey(st.courses.Keys), NewCourse(d, title));
  }

  /** Creating through the page panel never leaves two courses whose titles match ignoring case. */
  lemma PageCreateKeepsTitlesDistinct(st: Store, p: Panel, d: CourseDraft)
    requires !TruthyId(d.id)
    requires SaveCourse(PagePanel, st, p, d, false).outcome == Done
    ensures var after := SaveCourse(PagePanel, st, p, d, false).store.courses;
      exists k :: k !in st.courses && k in after
        && forall c :: c in st.courses ==> !EqualsIgnoreCase(st.courses[c].title, after[k].title)
  {
    var k := FreshKey(st.courses.Keys);
    var after := SaveCourse(PagePanel, st, p, d, false).store.courses;
    assert after[k].title == Trim(d.title.value);
    assert !TitleTaken(st, Trim(d.title.value));
  }

  /** Submitting the same new course twice in the page panel: the second attempt is refused as a duplicate. */
  lemma PageCreateTwiceRejected(st: Store, p: Panel, d: CourseDraft)
    requires !TruthyId(d.id)
    requires SaveCourse(PagePanel, st, p, d, false).outcome == Done
    ensures var first := SaveCourse(PagePanel, st, p, d, false);
      SaveCourse(PagePanel, first.store, first.panel, d, false) == Step(first.store, first.panel, Rejected(DuplicateTitle), [FindTitle(Trim(d.title.value))])
  {
    var k := FreshKey(st.courses.Keys);
    var first := SaveCourse(PagePanel, st, p, d, false);
    assert first.store.courses[k].title == Trim(d.title.value);
    assert TitleTaken(first.store, Trim(d.title.value));
  }

  /** The page panel checks the untrimmed title: a blank title passes and the stored course gets the empty title. */
  lemma PageSavesBlankTitleEmpty(st: Store, p: Panel, d: CourseDraft)
    requires TruthyText(d.title) && AllWhiteSpace(d.title.value)
    requires SaveCourse(PagePanel, st, p, d, false).outcome == Done
    ensures var after := SaveCourse(PagePanel, st, p, d, false).store.courses;
      (!TruthyId(d.id) ==> exists k :: k !in st.courses && k in after && after[k].title == "")
      && (TruthyId(d.id) && d.id.value in st.courses ==> after[d.id.value].title == "")
  {
    if !TruthyId(d.id) {
      var k := FreshKey(st.courses.Keys);
      assert SaveCourse(PagePanel, st, p, d, false).store == WriteCourse(st, d, Trim(d.title.value));
      assert WriteCourse(st, d, Trim(d.title.value)).courses[k].title == "";
    }
  }

  /** The nested sessions of the listed row never reach the store: only the course's own fields are written. */
  lemma SaveCourseIgnoresNested(v: Variant, st: Store, p: Panel, d: CourseDraft, fail: bool)
    ensures SaveCourse(v, st, p, d, fail) == SaveCourse(v, st, p, d.(nested := []), fail)
  {
  }

  /** A failed course write is not reported: the dialog closes and the list is refetched as after a successful one. */
  lemma SaveCourseFailureSilent(v: Variant, st: Store, p: Panel, d: CourseDraft)
    ensures SaveCourse(v, st, p, d, true).outcome == SaveCourse(v, st, p, d, false).outcome
    ensures SaveCourse(v, st, p, d, true).panel == SaveCourse(v, st, p, d, false).panel
    ensures SaveCourse(v, st, p, d, true).store == st
  {
  }

  /** `handleDeleteCourse` */
  function DeleteCourse(v: Variant, st: Store, p: Panel, id: int, confirmed: bool, fail: bool): (r: Step)
    ensures Locked(v) ==> r == Stay(st, p, Denied)
    ensures !Locked(v) && !confirmed ==> r == Stay(st, p, NoOp)
    ensures r.outcome == Rejected(CourseHasSessions) <==>
      !Locked(v) && confirmed && exists s :: s in st.sessions && st.sessions[s].courseId == id
    ensures r.outcome == Done <==>
      !Locked(v) && confirmed && !fail && forall s :: s in st.sessions ==> st.sessions[s].courseId != id
    ensures r.outcome != Done ==> r.store == st
    ensures r.outcome == Done ==>
      r.store.courses.Keys == st.courses.Keys - {id}
      && (forall c :: c in r.store.courses ==> r.store.courses[c] == st.courses[c])
      && r.store.sessions == st.sessions && r.store.bookings == st.bookings
    ensures r.panel == p
  {
    if Locked(v) then Stay(st, p, Denied)
    else if !confirmed then Stay(st, p, NoOp)
    else if |SessionIdsOf(st, id)| > 0 then
      Inhabited(SessionIdsOf(st, id));
      Step(st, p, Rejected(CourseHasSessions), [FindSessionsOf(id)])
    else if fail then Step(st, p, Failed, [FindSessionsOf(id), DeleteCourseRow(id)])
    else Step(st.(courses := st.courses - {id}), p, Done, [FindSessionsOf(id), DeleteCourseRow(id), FetchCourses])
  }

  // ---------------------------------------------------------------- sessions

  /** `openSessionManager` */
  function OpenSessionManager(v: Variant, st: Store, p: Panel, courseId: int): (r: Step)
    ensures Locked(v) ==> r == Stay(st, p, Denied)
    ensures !Locked(v) ==> r.panel.selectedCourse == Some(courseId) && r.panel.form == BlankForm && r.panel.managerOpen
    ensures r.store == st
  {
    if Locked(v) then Stay(st, p, Denied)
    else Step(st, p.(selectedCourse := Some(courseId), form := BlankForm, managerOpen := true), Done, [FetchSessions(courseId)])
  }

  /**
    The form filled by `handleEditSession`, as written: the date is the
    session's UTC day but the time its local time of day, so the form reads
    back as the start moved by whole days, the UTC day minus the local day.
   */
  function EditSessionAsWritten(p: Panel, row: SessionRow, zone: int): (q: Panel)
    ensures q.form.id == Some(row.id) && q.form.seats == Some(row.session.maxParticipants)
    ensures q.form.day.Some? && LocalInstant(q.form.day.value, q.form.minute, zone)
      == row.session.start + (UtcDay(row.session.start) - LocalDay(row.session.start, zone)) * MinutesPerDay
    ensures q == p.(form := q.form)
  {
    var t := row.session.start;
    MixedRoundTrip(t, zone);
    p.(form := SessionForm(Some(row.id), Some(UtcDay(t)), LocalMinute(t, zone), Some(row.session.maxParticipants)))
  }

  /** `handleEditSession`, with the date read in the same zone as the time. */
  function EditSession(p: Panel, row: SessionRow, zone: int): (q: Panel)
    ensures q.form.id == Some(row.id) && q.form.seats == Some(row.session.maxParticipants)
    ensures q.form.day.Some? && LocalInstant(q.form.day.value, q.form.minute, zone) == row.session.start
    ensures q == p.(form := q.form)
  {
    var t := row.session.start;
    LocalRoundTrip(t, zone);
    p.(form := SessionForm(Some(row.id), Some(LocalDay(t, zone)), LocalMinute(t, zone), Some(row.session.maxParticipants)))
  }

  /**
    The store write of a validated session form: an update of start and
    capacity when the form has an id, an insert under the course otherwise.
    The store refuses an insert whose course does not exist.
   */
  function WriteSession(st: Store, courseId: int, f: SessionForm, start: int, seats: int): Option<Store> {
    if TruthyId(f.id) then
      if f.id.value in st.sessions then
        var s := st.sessions[f.id.value];
        Some(st.(sessions := st.sessions[f.id.value := CourseSession(s.courseId, start, seats)]))
      else Some(st)
    else if courseId in st.courses then
      Some(st.(sessions := st.sessions[FreshKey(st.sessions.Keys) := CourseSession(courseId, start, seats)]))
    else None
  }

  /** `handleSaveSession`; `zone` is the browser's offset from UTC in minutes. */
  function SaveSession(v: Variant, st: Store, p: Panel, zone: int, fail: bool): (r: Step)
    ensures Locked(v) ==> r == Stay(st, p, Denied)
    ensures r.outcome == NoOp <==> !Locked(v) && (!TruthyId(p.selectedCourse) || p.form.day.None? || p.form.seats.None?)
    ensures r.outcome == Rejected(SeatsNotPositive) <==>
      !Locked(v) && TruthyId(p.selectedCourse) && p.form.day.Some? && p.form.seats.Some? && p.form.seats.value <= 0
    ensures r.outcome in {NoOp, Denied, Rejected(SeatsNotPositive), Failed, Done}
    ensures r.outcome in {NoOp, Denied, Rejected(SeatsNotPositive)} ==> r.store == st && r.panel == p && r.calls == []
    ensures r.outcome in {Failed, Done} ==> r.panel == p.(form := BlankForm) && |r.calls| == 3
    ensures r.outcome == Failed ==> r.store == st
    ensures fail ==> r.outcome != Done
    ensures r.store.courses == st.courses && r.store.bookings == st.bookings
    ensures st.sessions.Keys <= r.store.sessions.Keys
  {
    var f := p.form;
    if Locked(v) then Stay(st, p, Denied)
    else if !TruthyId(p.selectedCourse) || f.day.None? || f.seats.None? then Stay(st, p, NoOp)
    else if f.seats.value <= 0 then Stay(st, p, Rejected(SeatsNotPositive))
    else
      var cid := p.selectedCourse.value;
      var start := LocalInstant(f.day.value, f.minute, zone);
      var written := WriteSession(st, cid, f, start, f.seats.value);
      var write := if TruthyId(f.id) then UpdateSessionRow(f.id.value) else InsertSessionRow(cid);
      var calls := [write, FetchSessions(cid), FetchCourses];
      if fail || written.None? then Step(st, p.(form := BlankForm), Failed, calls)
      else Step(written.value, p.(form := BlankForm), Done, calls)
  }

  /** A successful save with a form id changes only that session's start and capacity. */
  lemma SaveSessionUpdates(v: Variant, st: Store, p: Panel, zone: int)
    requires TruthyId(p.form.id) && p.form.id.value in st.sessions
    requires SaveSession(v, st, p, zone, false).outcome == Done
    ensures var after := SaveSession(v, st, p, zone, false).store.sessions;
      var id := p.form.id.value;
      after.Keys == st.sessions.Keys
      && after[id].courseId == st.sessions[id].courseId
      && after[id].start == LocalInstant(p.form.day.value, p.form.minute, zone)
      && after[id].maxParticipants == p.form.seats.value
      && forall s :: s in st.sessions && s != id ==> after[s] == st.sessions[s]
  {
  }

  /** A successful save without a form id adds exactly one session, under the selected course. */
  lemma SaveSessionInserts(v: Variant, st: Store, p: Panel, zone: int)
    requires !TruthyId(p.form.id)
    requires SaveSession(v, st, p, zone, false).outcome == Done
    ensures var after := SaveSession(v, st, p, zone, false).store.sessions;
      |after| == |st.sessions| + 1
      && exists k :: (k !in st.sessions && after.Keys == st.sessions.Keys + {k}
        && after[k] == CourseSession(p.selectedCourse.value, LocalInstant(p.form.day.value, p.form.minute, zone), p.form.seats.value)
        && forall s :: s in st.sessions ==> after[s] == st.sessions[s])
  {
    var f := p.form;
    var cid := p.selectedCourse.value;
    var start := LocalInstant(f.day.value, f.minute, zone);
    var written := WriteSession(st, cid, f, start, f.seats.value);
    assert written.Some? && SaveSession(v, st, p, zone, false).store == written.value;
    InsertSessionAddsOne(st, cid, f, start, f.seats.value);
  }

  lemma InsertSessionAddsOne(st: Store, courseId: int, f: SessionForm, start: int, seats: int)
    requires !TruthyId(f.id) && courseId in st.courses
    ensures var after := WriteSession(st, courseId, f, start, seats).value.sessions;
      |after| == |st.sessions| + 1
      && exists k :: (k !in st.sessions && after.Keys == st.sessions.Keys + {k}
        && after[k] == CourseSession(courseId, start, seats)
        && forall s :: s in st.sessions ==> after[s] == st.sessions[s])
  {
    AddRow(st.sessions, FreshKey(st.sessions.Keys), CourseSession(courseId, start, seats));
  }

  /** Opening the manager and saving straight away writes nothing: the blank form has no date. */
  lemma OpenThenSaveIsNoOp(v: Variant, st: Store, p: Panel, courseId: int, zone: int, fail: bool)
    requires !Locked(v)
    ensures var o := OpenSessionManager(v, st, p, courseId);
      SaveSession(v, o.store, o.panel, zone, fail) == Stay(st, o.panel, NoOp)
  {
  }

  /** Editing a stored session and saving the form unchanged leaves the store as it was. */
  lemma EditThenSaveKeepsSession(v: Variant, st: Store, p: Panel, row: SessionRow, zone: int)
    requires !Locked(v) && TruthyId(p.selectedCourse)
    requires row.id != 0 && row.id in st.sessions && st.sessions[row.id] == row.session
    requires row.session.maxParticipants > 0
    ensures SaveSession(v, st, EditSession(p, row, zone), zone, false).store == st
  {
    var after := SaveSession(v, st, EditSession(p, row, zone), zone, false).store;
    assert after.sessions == st.sessions[row.id := row.session];
    assert after.sessions == st.sessions;
  }

  /**
    The same round trip through the form as written moves the session by the
    difference between its UTC day and its local day, a whole day whenever the
    two differ.
   */
  lemma EditAsWrittenThenSaveShifts(v: Variant, st: Store, p: Panel, row: SessionRow, zone: int)
    requires !Locked(v) && TruthyId(p.selectedCourse)
    requires row.id != 0 && row.id in st.sessions && st.sessions[row.id] == row.session
    requires row.session.maxParticipants > 0
    ensures var t := row.session.start;
      var after := SaveSession(v, st, EditSessionAsWritten(p, row, zone), zone, false).store;
      after.sessions[row.id].start == t + (UtcDay(t) - LocalDay(t, zone)) * MinutesPerDay
      && (after == st <==> UtcDay(t) == LocalDay(t, zone))
  {
    var t := row.session.start;
    MixedRoundTrip(t, zone);
    var after := SaveSession(v, st, EditSessionAsWritten(p, row, zone), zone, false).store;
    if after == st {
      assert after.sessions[row.id].start == t;
    }
    if UtcDay(t) == LocalDay(t, zone) {
      assert after.sessions == st.sessions[row.id := row.session];
    }
  }

  /** In a zone one hour east of UTC, a session at 23:50 UTC is saved back a day early: at 23:50 UTC the day before. */
  lemma EditAsWrittenExample()
    ensures var st := Store(map[1 := Course("Yoga", "", 60, "")], map[7 := CourseSession(1, 1430, 12)], map[]);
      var p := Panel(Some(1), BlankForm, true, false);
      var row := SessionRow(7, CourseSession(1, 1430, 12));
      SaveSession(PagePanel, st, EditSessionAsWritten(p, row, 60), 60, false).store.sessions[7].start == -10
  {
  }

  /** `handleDeleteSession` */
  function DeleteSession(v: Variant, st: Store, p: Panel, id: int, confirmed: bool, fail: bool): (r: Step)
    ensures Locked(v) ==> r == Stay(st, p, Denied)
    ensures !Locked(v) && !confirmed ==> r == Stay(st, p, NoOp)
    ensures r.outcome.Conflict? <==>
      !Locked(v) && confirmed && exists b :: b in st.bookings && st.bookings[b].sessionId == id
    ensures r.outcome.Conflict? ==> r.outcome.bookings == |BookingIdsOf(st, id)| > 0
    ensures r.outcome == Done <==> !Locked(v) && confirmed && forall b :: b in st.bookings ==> st.bookings[b].sessionId != id
    ensures r.outcome in {Denied, NoOp, Done} || r.outcome.Conflict?
    ensures r.outcome != Done || fail ==> r.store == st
    ensures r.outcome == Done && !fail ==>
      r.store.sessions.Keys == st.sessions.Keys - {id}
      && (forall s :: s in r.store.sessions ==> r.store.sessions[s] == st.sessions[s])
      && r.store.courses == st.courses && r.store.bookings == st.bookings
    ensures r.panel == p
  {
    if Locked(v) then Stay(st, p, Denied)
    else if !confirmed then Stay(st, p, NoOp)
    else
      var n := |BookingIdsOf(st, id)|;
      if n > 0 then
        Inhabited(BookingIdsOf(st, id));
        Step(st, p, Conflict(n), [FindBookingsOf(id)])
      else
        var refresh := if TruthyId(p.selectedCourse) then [FetchSessions(p.selectedCourse.value)] else [];
        Step(if fail then st else st.(sessions := st.sessions - {id}), p, Done,
          [FindBookingsOf(id), DeleteSessionRow(id)] + refresh + [FetchCourses])
  }

  /** A failed session delete is not reported: the operator sees the same outcome and the same refetches. */
  lemma DeleteSessionFailureSilent(v: Variant, st: Store, p: Panel, id: int, confirmed: bool)
    ensures DeleteSession(v, st, p, id, confirmed, true).outcome == DeleteSession(v, st, p, id, confirmed, false).outcome
    ensures DeleteSession(v, st, p, id, confirmed, true).calls == DeleteSession(v, st, p, id, confirmed, false).calls
  {
  }

  // ---------------------------------------------------------------- the panel as a whole

  /** An operator action on the panel. */
  datatype Action =
    | SaveCourseAction(draft: CourseDraft)
    | DeleteCourseAction(id: int, confirmed: bool)
    | OpenManagerAction(courseId: int)
    | EditSessionAction(row: SessionRow)
    | SaveSessionAction
    | DeleteSessionAction(sessionId: int, confirmed: bool)

  function Apply(v: Variant, st: Store, p: Panel, a: Action, zone: int, fail: bool): Step {
    match a
    case SaveCourseAction(d) => SaveCourse(v, st, p, d, fail)
    case DeleteCourseAction(id, ok) => DeleteCourse(v, st, p, id, ok, fail)
    case OpenManagerAction(c) => OpenSessionManager(v, st, p, c)
    case EditSessionAction(row) => Stay(st, EditSessionAsWritten(p, row, zone), Done)
    case SaveSessionAction => SaveSession(v, st, p, zone, fail)
    case DeleteSessionAction(id, ok) => DeleteSession(v, st, p, id, ok, fail)
  }

  /** In read-only mode every action but editing a session is refused before any store request, and editing only fills the form. */
  lemma ReadOnlyGate(st: Store, p: Panel, a: Action, zone: int, fail: bool)
    ensures var r := Apply(ComponentPanel(true), st, p, a, zone, fail);
      r.store == st && r.calls == []
      && (a.EditSessionAction? ==> r.panel == EditSessionAsWritten(p, a.row, zone) && r.outcome == Done)
      && (!a.EditSessionAction? ==> r.panel == p && r.outcome == Denied)
  {
  }

  /** Every panel action keeps every session's course and every booking's session in the store. */
  lemma {:induction false} ApplyPreservesConsistency(v: Variant, st: Store, p: Panel, a: Action, zone: int, fail: bool)
    requires Consistent(st)
    ensures Consistent(Apply(v, st, p, a, zone, fail).store)
  {
    var after := Apply(v, st, p, a, zone, fail).store;
    match a {
      case SaveCourseAction(d) =>
      case DeleteCourseAction(id, ok) =>
        forall s | s in after.sessions
          ensures after.sessions[s].courseId in after.courses
        {
          if DeleteCourse(v, st, p, id, ok, fail).outcome == Done {
            assert after.sessions[s].courseId != id;
          }
        }
      case OpenManagerAction(c) =>
      case EditSessionAction(row) =>
      case SaveSessionAction =>
        forall b | b in after.bookings
          ensures after.bookings[b].sessionId in after.sessions
        {
          assert st.bookings[b].sessionId in st.sessions;
        }
      case DeleteSessionAction(id, ok) =>
        forall b | b in after.bookings
          ensures after.bookings[b].sessionId in after.sessions
        {
          if DeleteSession(v, st, p, id, ok, fail).outcome == Done && !fail {
            assert after.bookings[b].sessionId != id;
          }
        }
    }
  }

  /** The course table's empty-state row: only the shared component has one, shown when no course is stored. */
  predicate ShowsNoCoursesRow(v: Variant, st: Store) {
    v.ComponentPanel? && |ListCourses(st)| == 0
  }

  lemma NoCoursesRowSpec(v: Variant, st: Store)
    ensures ShowsNoCoursesRow(v, st) <==> v.ComponentPanel? && st.courses == map[]
  {
    if |ListCourses(st)| == 0 {
      assert |st.courses.Keys| == 0;
      assert st.courses.Keys == {};
    }
  }
}
