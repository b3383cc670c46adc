# Course administration and customer portal — a Dafny model

This project models the decision logic of a small health-course and
customer-portal web application:

- **The course store** (`Catalog`). The `courses`, `course_sessions` and
  `bookings` tables are finite maps from row id to row. `Consistent` is the
  referential integrity the deletion guards protect: every session's course
  exists and every booking's session exists. The module also covers the read
  queries the panels issue: courses with their nested sessions by id, and a
  course's sessions by start time.
- **The admin panel** (`Admin`), in both of its copies. The page-local panel
  trims titles and refuses a case-insensitive duplicate title on create. The
  shared component has a read-only gate and neither trims nor checks titles.
  A `Variant` parameter selects the copy. The handlers are save course,
  delete course, open the session manager, edit a session, save a session
  and delete a session. Each is a pure transition returning the new store,
  the new panel state, the `Outcome` the operator is told (the alerts) and
  the store requests issued, in order. The confirmation dialog is a boolean
  input, and a failed store write is a `fail` input.
- **The course table** (`Views`). For each course it shows the next upcoming
  session, the "+N" chip counting further upcoming sessions, the seats of
  the next session with the "full" flag, and the warning for a course
  without sessions.
- **The app simulator** (`Simulator`). This covers its listing of upcoming
  sessions (start at or after now, earliest first), how a refresh replaces
  or closes the open session, the full flag on each card, the avatar
  initial, and which screen the phone frame shows for each tab.
- **The portal API** (`Portal`):
  - the project-details handler: view-mode selection, project lookup,
    comments newest first with `author_name` and `is_me`;
  - the comment handler: method, then session, then body checks, then the
    insert;
  - the registration handler: method, presence, length and uniqueness
    checks, then the insert.

  Status codes are returned as numbers. The database is a value. `dbDown`
  makes every query of a request fail.
- **The portal page** (`ProjectPage`). This covers the registration dialog's
  client-side checks, applying the details reply, the render dispatch,
  sending a comment, unescaping `\n` pairs in project content, and the
  comment author label.

Instants are whole minutes since the epoch in UTC. The browser's time zone
is a constant offset `zone`, in minutes east of UTC (`Clock`). A row
inserted into a table gets the key `FreshKey`, one more than the largest key
in use, as a serial column hands it out. The store refuses to insert a
session under a course that does not exist, because `course_id` is a
foreign key. The password hash is a function parameter.

## Model

| member | source | states |
|---|---|---|
| Text.Trim | pages/Umsetzung.tsx:174 | `trim()` cuts the input into leading white space, the result and trailing white space; the result neither starts nor ends with white space, and is empty exactly when the input is all white space |
| Text.EqualsIgnoreCaseCharwise | pages/Umsetzung.tsx:177-180 | the `ilike` title match holds exactly when both titles have the same length and agree letter by letter after case folding |
| Text.UpperThenLower | components/features/app-simulator/AppSimulator.tsx:105 | upper-casing a lower-case Latin letter gives one letter that folds back to the original |
| Text.UnescapeLeavesNoPair | pages/Umsetzungsplan.tsx:247 | after the global replace of backslash-`n` pairs, no such pair is left |
| Text.UnescapeEscape | pages/Umsetzungsplan.tsx:247 | unescaping inverts escaping for every text without a backslash-`n` pair of its own |
| Text.EscapeUnescape | pages/Umsetzungsplan.tsx:247 | escaping inverts unescaping for every text without a literal newline |
| Sorting.SortBy | pages/Umsetzung.tsx:278-280 | the sort returns a permutation of its input, of the same length, in non-decreasing key order |
| Sorting.SortByMembers | pages/Umsetzung.tsx:278-280 | sorting keeps exactly the elements it was given |
| Sorting.FilterMembers | pages/Umsetzung.tsx:279 | `filter` keeps exactly the elements that pass the test and no others |
| Sorting.Ascending | pages/Umsetzung.tsx:153 | `order('id')` lists every key of the table exactly once, in strictly increasing order |
| Sorting.FreshKey | pages/Umsetzung.tsx:195 | an inserted row's serial id is positive and larger than every id in use, so it is not taken |
| Clock.LocalMinute | pages/Umsetzung.tsx:237 | the local time of day is a minute between 0 and 1439 |
| Clock.LocalRoundTrip | pages/Umsetzung.tsx:219 | reading an instant's local date and time back in the same zone gives the instant |
| Clock.MixedRoundTrip | pages/Umsetzung.tsx:234-237 | pairing the UTC date with the local time gives the instant shifted by whole days, and gives it unchanged exactly when both calendars agree on the day |
| Catalog.NestedSessions | pages/Umsetzung.tsx:152 | a course has one nested session per stored session of that course |
| Catalog.NestedSessionsSound | pages/Umsetzung.tsx:152 | each nested session belongs to the course and carries its stored start, capacity and booking count |
| Catalog.NestedSessionsComplete | pages/Umsetzung.tsx:152 | every session of the course is nested, in ascending id order |
| Catalog.ListCourses | pages/Umsetzung.tsx:149-155 | `fetchCourses` lists as many rows as there are courses |
| Catalog.ListCoursesSound | pages/Umsetzung.tsx:149-155 | each listed row is a stored course with its own nested sessions, in ascending id order |
| Catalog.ListCoursesComplete | pages/Umsetzung.tsx:149-155 | every stored course is listed |
| Catalog.SessionRowsOf | components/features/app-simulator/AdminPanel.tsx:49-54 | each row of the manager query is a stored session of the course, with its stored values |
| Catalog.SessionRowsOfComplete | components/features/app-simulator/AdminPanel.tsx:49-54 | every stored session of the course is a row of the manager query |
| Catalog.ManagerList | pages/Umsetzung.tsx:159-162 | the session manager's list is ordered by start and is a permutation of the course's session rows |
| Catalog.ManagerListSpec | pages/Umsetzung.tsx:159-162 | the session manager lists a row exactly when it is a stored session of the course |
| Views.FutureSessions | pages/Umsetzung.tsx:278-280 | the future sessions are exactly the sessions starting at or after now, earliest first |
| Views.FutureSessionsCount | pages/Umsetzung.tsx:278-280 | there are as many future sessions as sessions starting at or after now, counted independently |
| Views.NextSessionSpec | pages/Umsetzung.tsx:281 | the next session is the earliest one starting at or after now, and there is none exactly when every session has started |
| Views.MoreChipSpec | pages/Umsetzung.tsx:296 | the chip appears only when more than one session is upcoming, shows that count minus one, and implies there is a next session |
| Views.CourseTable | pages/Umsetzung.tsx:275 | the table has one row per stored course |
| Views.CourseTableRows | pages/Umsetzung.tsx:275-289 | each row shows a stored course in ascending id order, and warns exactly when the course has no session |
| Views.CourseTableNext | components/features/app-simulator/AdminPanel.tsx:200-207 | a row's next-session cell is the course's earliest stored session starting at or after now, and is empty exactly when all of them have started |
| Views.CourseTableSeats | pages/Umsetzung.tsx:301-306 | the seats cell appears with the next session, counts its stored bookings, and shows it full exactly when they reach its capacity |
| Admin.SaveCourse | pages/Umsetzung.tsx:171-201 | a missing or empty title is a no-op that issues no store request; on create the page panel refuses a title matching a stored one ignoring case, after only the title lookup and without writing; a success closes the dialog and refetches; sessions and bookings are never touched and no course disappears |
| Admin.SaveCourseUpdates | pages/Umsetzung.tsx:192-193 | an update rewrites only the edited course, takes the saved title and the draft's fields, and keeps the stored value of each field the draft leaves out |
| Admin.SaveCourseInserts | pages/Umsetzung.tsx:194-196 | a create adds exactly one course under a key that was free, with the saved title, and keeps every other course |
| Admin.PageCreateKeepsTitlesDistinct | pages/Umsetzung.tsx:176-185 | a course created through the page panel has a title no existing course matches ignoring case |
| Admin.PageCreateTwiceRejected | pages/Umsetzung.tsx:176-185 | submitting the same new course twice in the page panel: the second attempt is refused as a duplicate after one title query |
| Admin.PageSavesBlankTitleEmpty | pages/Umsetzung.tsx:172-190 | the presence check is on the untrimmed title, so a blank title passes and the stored course, new or updated, gets the empty title |
| Admin.SaveCourseIgnoresNested | pages/Umsetzung.tsx:188 | the nested sessions carried by the draft have no effect on what is saved |
| Admin.SaveCourseFailureSilent | pages/Umsetzung.tsx:192-200 | a failed course write changes nothing in the store, yet the operator sees the same outcome and the dialog closes as after a successful one |
| Admin.DeleteCourse | pages/Umsetzung.tsx:203-213 | a course with a session is refused and nothing changes; otherwise, once confirmed and if the write succeeds, exactly that course is removed and nothing else changes |
| Admin.OpenSessionManager | pages/Umsetzung.tsx:164-169 | opening the manager selects the course, resets the form to date empty, 10:00 and 10 seats, and opens the dialog |
| Admin.EditSession | pages/Umsetzung.tsx:234-239 | the corrected edit fills the form with the session's id and capacity, and with a local date and time that read back as its start |
| Admin.EditSessionAsWritten | pages/Umsetzung.tsx:234-239 | the edit as written fills the form with the session's id and capacity, and with a date and time that read back as its start moved by the UTC day minus the local day |
| Admin.SaveSession | pages/Umsetzung.tsx:215-232 | without a course, date or seat count nothing happens; seats of 0 or fewer are refused before any write; every attempted write resets the form and issues the write and two refetches; courses and bookings are never touched and no session disappears |
| Admin.SaveSessionUpdates | pages/Umsetzung.tsx:221-222 | a save with a form id changes only that session's start and capacity, keeping its course |
| Admin.SaveSessionInserts | pages/Umsetzung.tsx:224-225 | a save without a form id adds exactly one session, under the selected course, with the form's start and capacity |
| Admin.OpenThenSaveIsNoOp | pages/Umsetzung.tsx:216 | saving straight after opening the manager writes nothing, because the blank form has no date |
| Admin.EditThenSaveKeepsSession | pages/Umsetzung.tsx:219-228 | editing a stored session with the corrected edit and saving unchanged leaves the store as it was |
| Admin.EditAsWrittenThenSaveShifts | components/features/app-simulator/AdminPanel.tsx:130-135 | with the edit as written, saving unchanged moves the session by the difference between its UTC day and its local day |
| Admin.EditAsWrittenExample | components/features/app-simulator/AdminPanel.tsx:131-134 | one hour east of UTC, a session at 23:50 UTC is saved back a whole day early |
| Admin.DeleteSession | pages/Umsetzung.tsx:241-252 | a session with bookings is refused, reporting how many, and nothing changes; otherwise, once confirmed, exactly that session is removed unless the write fails |
| Admin.DeleteSessionFailureSilent | components/features/app-simulator/AdminPanel.tsx:147-150 | a failed session delete shows the same outcome and refetches as a successful one |
| Admin.ReadOnlyGate | components/features/app-simulator/AdminPanel.tsx:31-37 | in read-only mode every action except editing a session is refused with no store request, and editing only fills the form |
| Admin.ApplyPreservesConsistency | components/features/app-simulator/AdminPanel.tsx:76-151 | every panel action, with the edit as written, keeps every session's course and every booking's session in the store |
| Admin.NoCoursesRowSpec | components/features/app-simulator/AdminPanel.tsx:293-299 | the shared component shows the "no courses" row exactly when no course is stored |
| Simulator.UpcomingCards | components/features/app-simulator/AppSimulator.tsx:35 | each fetched row carries its session's course and booking count |
| Simulator.UpcomingQuery | components/features/app-simulator/AppSimulator.tsx:33-37 | the listing is ordered by start, earliest first |
| Simulator.UpcomingQuerySound | components/features/app-simulator/AppSimulator.tsx:33-37 | every listed card is a stored session starting at or after now, with its current course and booking count |
| Simulator.UpcomingQueryComplete | components/features/app-simulator/AppSimulator.tsx:33-37 | every stored session starting at or after now is listed |
| Simulator.UpcomingQueryDistinct | components/features/app-simulator/AppSimulator.tsx:34-37 | no session is listed twice |
| Auth.IsAdminExactly | components/features/app-simulator/AppSimulator.tsx:21 | only the exact, case-sensitive role `admin` makes a user an admin; no session, no role, `Admin` or `admin ` does not |
| Simulator.CardFullSpec | components/features/app-simulator/AppSimulator.tsx:71-87 | a listed card is shown full exactly when its session's stored bookings reach its capacity |
| Simulator.FindByIdSpec | components/features/app-simulator/AppSimulator.tsx:44 | `find` yields nothing exactly when no card has the id, and otherwise the first card that has it |
| Simulator.Refresh | components/features/app-simulator/AppSimulator.tsx:39-48 | a failed fetch leaves the list and the open session as they were; a successful one replaces the list; loading ends either way |
| Simulator.RefreshSelection | components/features/app-simulator/AppSimulator.tsx:43-46 | after a refresh the open session is the fresh card with the same id, or is closed exactly when no card has that id |
| Simulator.RefreshFromStore | components/features/app-simulator/AppSimulator.tsx:29-51 | refreshing from the store keeps an open session exactly while it is upcoming, and then shows its current stored values |
| Simulator.AvatarInitialOfLetter | components/features/app-simulator/AppSimulator.tsx:105 | a lower-case initial shows as one capital letter that folds back to it |
| Simulator.TabsSelectScreens | components/features/app-simulator/AppSimulator.tsx:152-196 | tabs 0 to 4 select five different screens, each reached only through its own tab, and the bottom navigation shows exactly when no session is open |
| Simulator.OpenBack | components/features/app-simulator/AppSimulator.tsx:160-163 | opening a card shows its details, and the back arrow returns to the tab that was showing |
| Portal.SummaryRows | pages/api/projects/details.ts:34-35 | each joined row is a project with its owner's name |
| Portal.AdminProjectsNewestFirst | pages/api/projects/details.ts:35 | the admin overview is ordered by creation time, newest first |
| Portal.AdminProjectsSound | pages/api/projects/details.ts:33-39 | every overview row is a stored project whose owner exists, with its title, status, time and the owner's name |
| Portal.AdminProjectsComplete | pages/api/projects/details.ts:33-39 | every project whose owner exists appears in the overview |
| Portal.FirstProjectOf | pages/api/projects/details.ts:47 | a project found for a user is stored and owned by that user |
| Portal.FirstProjectOfSpec | pages/api/projects/details.ts:46-55 | a user gets a project exactly when they own one, and then the one with the lowest id |
| Portal.CommentRows | pages/api/projects/details.ts:72-79 | each mapped row is the view of one such comment |
| Portal.CommentsOfSound | pages/api/projects/details.ts:59-79 | every comment shown is a stored comment on the project whose author exists |
| Portal.ShownViewFields | pages/api/projects/details.ts:72-79 | a shown comment carries its stored message, time, author name and role, and `is_me` holds exactly when the caller wrote it |
| Portal.CommentsOfNewestFirst | pages/api/projects/details.ts:67 | comments come newest first |
| Portal.CommentsOfComplete | pages/api/projects/details.ts:59-68 | every comment on the project whose author exists is shown |
| Portal.Details | pages/api/projects/details.ts:15-97 | the admin overview is chosen exactly for an admin without an id, with no project and no comments; with an id the project is looked up by id; an anonymous caller without an id gets no project and no query; comments are fetched only for a found project; a failing query gives the error reply exactly when a query runs |
| Portal.DetailsOwnProject | pages/api/projects/details.ts:46-53 | without an id, a signed-in customer sees a project exactly when they own one, and it is theirs |
| Portal.AnonymousNeverMe | pages/api/projects/details.ts:70-78 | an anonymous caller has no comment tagged as their own |
| Portal.PostComment | pages/api/projects/comment.ts:6-40 | a non-POST request gets 405 before anything else, then a missing session gets 401, then a missing project id or a blank message gets 400; only a 200 changes the database, and never its users or projects |
| Portal.PostCommentInserts | pages/api/projects/comment.ts:26-34 | a 200 adds exactly one comment, authored by the caller, holding the message as sent, untrimmed |
| Portal.PostCommentChecksFirst | pages/api/projects/comment.ts:7-24 | the 405, 401 and 400 replies do not depend on the database being reachable |
| Portal.Register | pages/api/auth/register.ts:5-41 | a non-POST request gets 405, a missing field or a password shorter than 6 gets 400, a taken username gets 409 and 201 otherwise; only a 201 changes the database, and only its users |
| Portal.RegisterInserts | pages/api/auth/register.ts:29-36 | a 201 adds exactly one user, with the role "client", the username as first name and the hash of the password |
| Portal.RegisterKeepsUsernamesUnique | pages/api/auth/register.ts:20-34 | registration never creates a second user with a username already taken |
| Portal.RegisterTwiceConflicts | pages/api/auth/register.ts:21-27 | registering the same username again gets 409 |
| Portal.RegisterChecksFirst | pages/api/auth/register.ts:6-18 | the method, presence and length checks answer with the same status and message whatever the database holds |
| ProjectPage.RegisterErrorSpec | pages/Umsetzungsplan.tsx:45-47 | the form passes exactly when every field is filled, the passwords agree and the password is long enough, and each error is reported only once the earlier checks pass |
| ProjectPage.HandleRegister | pages/Umsetzungsplan.tsx:43-62 | a request is sent exactly when the form passes, and otherwise the first failing check's message is shown; success is shown exactly for an ok reply, with no error; every failure shows a message, the generic one when no reply arrives |
| ProjectPage.ClientChecksCoverServerChecks | pages/Umsetzungsplan.tsx:45-51 | a form the dialog accepts is never refused by the server's validation |
| ProjectPage.ServerChecksCoveredByClient | pages/Umsetzungsplan.tsx:45-47 | whatever the server's validation refuses, the dialog refuses first, with the same words for a short password |
| ProjectPage.RegisterEndToEnd | pages/Umsetzungsplan.tsx:50-60 | registering through the dialog succeeds exactly when the username is free, and otherwise shows the server's conflict message |
| ProjectPage.ApplyDetails | pages/Umsetzungsplan.tsx:151-166 | a failed request leaves the page as it was apart from loading; an error reply clears the mode, the project and the lists; the comment input is kept |
| ProjectPage.Render | pages/Umsetzungsplan.tsx:194-245 | loading comes first, then the admin overview, then the missing project (offering sign-in exactly when signed out), then the project |
| ProjectPage.RenderAfterLoad | pages/Umsetzungsplan.tsx:206-241 | after loading, the overview shows exactly for an admin without an id while the database is up, and an anonymous visitor without an id is offered sign-in |
| ProjectPage.HandleSend | pages/Umsetzungsplan.tsx:172-189 | nothing changes unless the trimmed message is non-empty, there is a project and a user, and the request succeeds; then one own comment with the message goes on top and the input is cleared |
| ProjectPage.SendEndToEnd | pages/Umsetzungsplan.tsx:173-187 | a comment the page sends is accepted exactly when the database is up, and only then does the list change |
| ProjectPage.FormatContent | pages/Umsetzungsplan.tsx:247 | missing or empty content shows as the empty string, and the shown text has no backslash-`n` pair left |
| ProjectPage.FormatContentRestoresLines | pages/Umsetzungsplan.tsx:247 | content stored with its line breaks escaped shows with the line breaks |
| ProjectPage.RoleLabelOfComment | pages/Umsetzungsplan.tsx:300 | a fetched comment is labelled "Admin" exactly when its author's role is admin, and "Kunde" otherwise |

## Left out

- Store and database calls are not modelled as I/O. They are operations on an abstract store.
  - Reads are assumed to succeed.
  - A failed write is the `fail` input.
  - A request whose queries all fail is the `dbDown` input.
  - A failed read that the panels treat as "no rows" is not modelled.
- `ilike` is modelled as whole-string equality ignoring case. Its `%` and `_` wildcards are not modelled.
- Case folding covers Basic Latin and Latin-1 letters only.
- String lengths and the first character count Unicode code points, where JavaScript counts UTF-16 code units.
- Seats are an already-parsed integer. A non-numeric seat field yields NaN in the source, which the `<= 0` check lets through; that case is not modelled.
- The time field is always a valid time of day; clearing it is not modelled.
- Date and time conversion, locale formatting and daylight-saving time are not modelled.
  - The browser zone is one constant offset in minutes.
  - Instants are whole minutes, with no seconds or milliseconds.
- Each handler is atomic. The race between a guard query and the delete that follows it is not modelled, and no concurrency claim is made.
- The stale `selectedSession` closure in the simulator's fetch effect is not modelled; the refresh reads the current selection.
- Serial ids: an insert takes one more than the largest key in use. Ids freed by a delete are not remembered.
- Inserted courses take the column defaults `""` and `0` for fields the draft leaves out.
- `LIMIT 1` without `ORDER BY` is modelled as the lowest project id. Rows created at the same instant are ordered by ascending id.
- Where the store leaves an order open, the model fixes it to ascending id. This applies to sessions nested under a course, whose embed has no order. It also applies to sessions with the same `start_time` in the manager list and the simulator's listing. So of two sessions that start at the same time, the course table's "next session" cell shows the one with the lower id.
- Comments are not checked against a foreign key on `project_id`: the comment handler inserts whatever project id it is given.
- bcrypt hashing and its salt are a function parameter.
- The project page's refetch when the session changes is not modelled. The dialog's two-second reset timer is not modelled either.
- The table's `index % 2` striping, the `isAdmin` chips and other presentational details are not modelled. `isAdmin` is the predicate `Auth.IsAdmin`; `Auth.IsAdminExactly` states what it accepts.
- The profile screen's avatar, which has no "U" fallback, is not modelled.
- These parts are not part of this model:
  - the chat feature and its LLM client;
  - the appointment request and its mail delivery;
  - next-auth sign-in and redirects;
  - marketing, blog and career pages, and other presentational files.

## Where the code departs from the design

The model follows the code wherever the two disagree:

- The design says every store failure reaches the operator and that a failed save keeps its dialog open. In the code:
  - a course write's error is ignored and the dialog closes (`Admin.SaveCourseFailureSilent`);
  - a session delete's error is ignored (`Admin.DeleteSessionFailureSilent`);
  - only the course delete and the session writes raise the error alert.
- The design says a failed read propagates. The code treats a failed read as an empty result.
- The design validates a missing date or time. The code checks the date field only.
- The design requires a non-empty course title. The page panel checks the untrimmed title, so a blank title is saved as the empty string (`Admin.PageSavesBlankTitleEmpty`).
- The design says a session's capacity is always positive. The code enforces this only when saving a form; stored rows are not constrained by the model.
- The design says both delete conflicts name the blocking count. Only the session delete reports a count (`Conflict`); the course delete's refusal does not.
- The design gates every mutating action in read-only mode. Only the shared component has the gate; the page panel has none.

## Findings

| source | as written | input that shows it | evidently intended | confidence | as-written member | corrected member |
|---|---|---|---|---|---|---|
| pages/Umsetzung.tsx:234-239 (also components/features/app-simulator/AdminPanel.tsx:130-135) | `handleEditSession` fills the date field from `toISOString()`, the UTC day, and the time field from `toLocaleTimeString`, the local time of day | browser one hour east of UTC (`zone` = 60), session starting at 23:50 UTC on day 0 (`start` = 1430): the form shows day 0 at 00:50, and saving it unchanged writes `start` = -10, a day early | date and time read in the same zone, so an unchanged edit saves the same instant | not executed | Admin.EditAsWrittenThenSaveShifts, Admin.EditAsWrittenExample | Admin.EditSession, Admin.EditThenSaveKeepsSession |
