# Mentor–mentee portal workflow, modelled in Dafny

This project models the workflow state behind the faculty and HOD screens of a
role-based mentoring portal for students, faculty and the head of department (HOD).

- **Faculty store.** Two tables, students and questions, keyed by numeric id. Four
  mutators rewrite one record by id. Each student has three independent statuses:
  remark (New/Done), mentoring request (Pending/Accepted/Rejected) and HOD support
  (Not Required/Requested/Pending/Approved). Answering a question also marks the
  asking student's remark Done.
- **Faculty screens.** The dashboard lists the accepted mentees. Its remark dialog
  answers the selected student's first pending question. The notification page
  accepts or rejects pending mentoring requests. The requests-to-HOD page escalates
  an eligible student with a reason.
- **HOD dashboard.** Student requests and faculty support requests move from
  Pending to Approved or Rejected. Two Pending views list the rows that carry the
  action buttons.
- **Login session.** A fixed directory of email, password and role. The session
  holds only whether someone is signed in and with which role.

Files and modules:

- `records.dfy` (`Records`): the three array idioms every table uses, stated once
  over any record type. `UpdateWhere` is the id-matched `map`, `Filter` is `filter`,
  and `FirstIndex` is the position `find` returns. The generic lemmas about them
  live here too.
- `js_values.dfy` (`JsValues`): the guards' truth tests. `IsBlank` is `!s.trim()`,
  using the ECMA-262 WhiteSpace (section 12.2) and LineTerminator (section 12.3)
  code points. `Truthy` is a `number | null` selection used as a condition.
- `faculty_context.dfy` (`FacultyContext`): the store, as the class `FacultyProvider`
  with the `seq` fields `students` and `questions`. Each per-table rewrite is a function.
- `faculty_dashboard.dfy`, `requests_to_hod.dfy`, `notification.dfy`: the three
  faculty pages. The two pages with dialog state are classes holding the shared store.
- `hod_dashboard.dfy` (`HodDashboardPage`): the class `HodDashboard` and its views.
- `auth_context.dfy` (`AuthContext`): the class `AuthProvider` and the directory lookup.

The model follows the code, not a hardened design:

- A question can be answered again, and the new answer overwrites the old one.
- A request can be re-decided whatever its status.
- HOD support can be requested from any support status.
- The mutators check no text for blankness. Only the page guards do.

Each state-changing method is specified by a pure function of the old state. The
lemmas state what the source promises about those functions: frames, the
answer/remark coupling, the views' contents and order, and counts.

## Model

| member | source | states |
|---|---|---|
| Records.UpdateWhere | src/contexts/FacultyContext.tsx:131-135 | the id-matched `map`: same length and order; each record with the id becomes `f` of it; every other record is kept |
| Records.Filter | src/pages/hod/Dashboard.tsx:178-184 | `filter`: a row is in the view iff it is in the table and passes the test; the view is a subsequence of the table |
| Records.FilterCounts | src/pages/hod/Dashboard.tsx:178-184 | a view holds each passing record exactly as often as the table, and no failing record |
| Records.FilterAppend | src/pages/hod/Dashboard.tsx:178-184 | filtering distributes over concatenation, so the view keeps table order |
| Records.FirstIndex | src/contexts/FacultyContext.tsx:155 | `find`: None iff no element passes; otherwise a passing position with no passing element before it |
| Records.FilterHeadIsFirstMatch | src/pages/faculty/Dashboard.tsx:20-22 | a view is non-empty iff `find` succeeds, and its head is the element `find` returns |
| Records.FilterAllPass | src/pages/hod/Dashboard.tsx:38-127 | a view of a table whose rows all pass is the whole table |
| Records.DisjointViewsFit | src/pages/faculty/RequestsToHOD.tsx:18-25 | two views with exclusive tests together hold at most the table's number of rows |
| Records.UpdateMissingIsIdentity | src/contexts/FacultyContext.tsx:131-135 | an update for an id no record has returns the table unchanged |
| Records.UpdateKeepsKeys | src/contexts/FacultyContext.tsx:132-134 | a rewrite that keeps ids keeps each position's id |
| Records.LastWriteWins | src/contexts/FacultyContext.tsx:162-168 | two rewrites of one id, where the second overwrites the first, equal the second alone |
| Records.UpdateLeavesView | src/pages/hod/Dashboard.tsx:140-150 | after a rewrite that fails the view's test, no row with that id is in the view |
| Records.UpdateEntersView | src/pages/faculty/RequestsToHOD.tsx:23-25 | after a rewrite that passes the test, the rewritten record is in the view |
| Records.UpdateKeepsOtherRows | src/pages/faculty/Notification.tsx:14-27 | a rewrite of one id moves no record with another id into or out of a view |
| Records.UpdateShrinksViewByOne | src/pages/hod/Dashboard.tsx:140-150 | acting on the one in-view record with a unique id shrinks the view by exactly one |
| Records.RowActionTouchesOnlyViewRows | src/pages/hod/Dashboard.tsx:262-303 | with unique ids, an action sent from a view row changes only records in the view |
| JsValues.TrimStart | src/pages/faculty/Dashboard.tsx:37 | drops exactly a leading run of WhiteSpace/LineTerminator; the result is a suffix and starts with neither |
| JsValues.TrimEnd | src/pages/faculty/Dashboard.tsx:37 | drops exactly a trailing run; the result is a prefix and ends with neither |
| JsValues.Trim | src/pages/faculty/RequestsToHOD.tsx:35 | `trim()`: the result is the slice `s[a..b]` where everything before `a` and from `b` on is WhiteSpace or LineTerminator, and a non-empty result starts and ends with neither |
| JsValues.IsBlank | src/pages/faculty/RequestsToHOD.tsx:35 | `!s.trim()` (also src/pages/faculty/Dashboard.tsx:37): holds iff every character is WhiteSpace or LineTerminator, the empty text included |
| JsValues.Truthy | src/pages/faculty/RequestsToHOD.tsx:35 | `!selectedStudent` (also src/pages/faculty/Dashboard.tsx:20): a selection is falsy iff it is null or 0 |
| FacultyContext.WithRemarkStatus | src/contexts/FacultyContext.tsx:130-136 | same length and order; each student with the id gets the remark and keeps every other field; the others are unchanged |
| FacultyContext.WithRequestStatus | src/contexts/FacultyContext.tsx:162-168 | the matching students get the request status whatever it was; nothing else changes |
| FacultyContext.WithHodSupportRequested | src/contexts/FacultyContext.tsx:171-179 | the matching students become Requested with the reason, with no check of status or reason; the others are unchanged |
| FacultyContext.WithAnswer | src/contexts/FacultyContext.tsx:139-152 | the matching questions become Answered with the answer, signer "Dr. Ramesh Kumar" and the date; id, asker, text and date are kept; others are unchanged |
| FacultyContext.MarkOwnerDone | src/contexts/FacultyContext.tsx:154-158 | same length; with no question of that id the students are unchanged; otherwise every student whose id is the first such question's asker gets remark Done and keeps every other field, and every other student is unchanged |
| FacultyContext.OwnerOf | src/contexts/FacultyContext.tsx:155 | None iff no question has the id; otherwise the asker of the first question with it |
| FacultyContext.FacultyProvider.constructor | src/contexts/FacultyContext.tsx:126-127 | the tables start as the seed, which is consistent (`Valid`) |
| FacultyContext.FacultyProvider.UpdateRemarkStatus | src/contexts/FacultyContext.tsx:130-136 | replaces students by `WithRemarkStatus`; questions unchanged; consistency is kept |
| FacultyContext.FacultyProvider.AnswerQuestion | src/contexts/FacultyContext.tsx:139-159 | questions become `WithAnswer`; students get the asker, found in the old questions, marked Done, or stay unchanged when no question has the id; in a consistent store, consistency is kept and every question with the id ends Answered next to an asker whose remark is Done |
| FacultyContext.FacultyProvider.UpdateRequestStatus | src/contexts/FacultyContext.tsx:162-168 | replaces students by `WithRequestStatus`; the status is Accepted or Rejected as typed; consistency is kept |
| FacultyContext.FacultyProvider.RequestHodSupport | src/contexts/FacultyContext.tsx:171-179 | replaces students by `WithHodSupportRequested`; questions unchanged; consistency is kept |
| FacultyContext.FacultyProvider.ViewStudentDashboard | src/contexts/FacultyContext.tsx:182-185 | changes nothing |
| FacultyContext.SeedIsConsistent | src/contexts/FacultyContext.tsx:41-119 | seed ids are unique in both tables and every question's asker is a seeded student |
| FacultyContext.AnswerCouplesRemark | src/contexts/FacultyContext.tsx:139-159 | in a consistent store, answering an existing question leaves it Answered and its asker's remark Done |
| FacultyContext.AnswerCouplesAllMatches | src/contexts/FacultyContext.tsx:139-159 | in a consistent store, after answering, every question with the id is Answered and its asker is a student whose remark is Done |
| FacultyContext.AnswerMissingChangesNothing | src/contexts/FacultyContext.tsx:154-158 | answering an id no question has changes neither table |
| FacultyContext.RemarkMissingIdUnchanged | src/contexts/FacultyContext.tsx:131-135 | `updateRemarkStatus` for an absent id leaves students unchanged |
| FacultyContext.ReanswerOverwrites | src/contexts/FacultyContext.tsx:141-150 | answering twice equals answering once with the second answer and date |
| FacultyContext.RequestStatusOverwrites | src/contexts/FacultyContext.tsx:162-168 | the last request decision wins whatever came before |
| FacultyContext.HodSupportFromAnyStatus | src/contexts/FacultyContext.tsx:171-179 | requesting support twice equals requesting once with the second reason |
| FacultyContext.SameIdsStayConsistent | src/contexts/FacultyContext.tsx:41-119 | rewriting students without touching ids keeps the store consistent |
| FacultyContext.StudentMutatorsPreserveConsistency | src/contexts/FacultyContext.tsx:130-179 | the three student mutators keep a consistent store consistent |
| FacultyContext.AnswerPreservesConsistency | src/contexts/FacultyContext.tsx:139-159 | answering keeps a consistent store consistent |
| FacultyDashboardPage.StudentQuestions | src/pages/faculty/Dashboard.tsx:20-22 | empty without a selection (null or 0); otherwise exactly the selected student's Pending questions, as a subsequence |
| FacultyDashboardPage.CurrentStudents | src/pages/faculty/Dashboard.tsx:56 | exactly the students with request status Accepted, as a subsequence |
| FacultyDashboardPage.AnswersFirstPendingQuestion | src/pages/faculty/Dashboard.tsx:42 | the answered question is the student's earliest Pending question in the table |
| FacultyDashboardPage.AnsweringShrinksStudentQuestions | src/pages/faculty/Dashboard.tsx:42 | with unique ids, the answered question leaves the list, which shrinks by one |
| FacultyDashboardPage.FacultyDashboard.constructor | src/pages/faculty/Dashboard.tsx:14-16 | no selection, dialog closed, empty answer |
| FacultyDashboardPage.FacultyDashboard.OpenRemarkDialog | src/pages/faculty/Dashboard.tsx:30-33 | selects the student and opens the dialog |
| FacultyDashboardPage.FacultyDashboard.EditAnswer | src/pages/faculty/Dashboard.tsx:154 | sets the answer text |
| FacultyDashboardPage.FacultyDashboard.SubmitAnswer | src/pages/faculty/Dashboard.tsx:36-46 | no change if the answer is blank or no question is listed; otherwise answers the first listed question with the untrimmed text, clears the text and closes the dialog |
| RequestsToHodPage.EligibleStudents | src/pages/faculty/RequestsToHOD.tsx:18-20 | exactly the students whose support status is Not Required, as a subsequence |
| RequestsToHodPage.PendingRequests | src/pages/faculty/RequestsToHOD.tsx:23-25 | exactly the students whose support status is Requested, as a subsequence |
| RequestsToHodPage.ListsAreDisjoint | src/pages/faculty/RequestsToHOD.tsx:18-25 | no student is in both lists; together they hold at most all students |
| RequestsToHodPage.RequestMovesStudent | src/pages/faculty/RequestsToHOD.tsx:40 | after a request, no student with that id is eligible, and the updated student is in the Requested list |
| RequestsToHodPage.RequestsToHod.constructor | src/pages/faculty/RequestsToHOD.tsx:13-15 | no selection, dialog closed, empty reason |
| RequestsToHodPage.RequestsToHod.OpenRequestDialog | src/pages/faculty/RequestsToHOD.tsx:28-31 | selects the student and opens the dialog |
| RequestsToHodPage.RequestsToHod.EditReason | src/pages/faculty/RequestsToHOD.tsx:153 | sets the reason text |
| RequestsToHodPage.RequestsToHod.SubmitRequest | src/pages/faculty/RequestsToHOD.tsx:34-44 | no change if the reason is blank or nothing is selected (null or 0); otherwise requests support with the untrimmed reason, clears it and closes the dialog |
| NotificationPage.PendingRequests | src/pages/faculty/Notification.tsx:14-16 | exactly the students with request status Pending, as a subsequence |
| NotificationPage.HandleAccept | src/pages/faculty/Notification.tsx:19-22 | the store's students become `WithRequestStatus(.., Accepted)` |
| NotificationPage.HandleReject | src/pages/faculty/Notification.tsx:25-28 | the store's students become `WithRequestStatus(.., Rejected)` |
| NotificationPage.DecisionLeavesPending | src/pages/faculty/Notification.tsx:14-27 | after either decision no student with that id is pending; every other student is listed iff it was before |
| NotificationPage.DecisionShrinksPendingByOne | src/pages/faculty/Notification.tsx:14-27 | deciding a Pending student with a unique id shrinks the list by exactly one |
| NotificationPage.ButtonsOnlyDecidePending | src/pages/faculty/Notification.tsx:60-81 | with unique ids, a row's button changes only a student whose request is Pending |
| HodDashboardPage.Outcome | src/pages/hod/Dashboard.tsx:146 | an action never yields Pending; it yields Approved iff the action is approve |
| HodDashboardPage.ActOnStudentRequests | src/pages/hod/Dashboard.tsx:140-150 | the matching student requests take the action's outcome whatever their status; the rest are unchanged; length and order kept |
| HodDashboardPage.ActOnFacultyRequests | src/pages/hod/Dashboard.tsx:159-169 | the same for faculty requests |
| HodDashboardPage.PendingStudentRequests | src/pages/hod/Dashboard.tsx:178-180 | exactly the Pending student requests, as a subsequence |
| HodDashboardPage.PendingFacultyRequests | src/pages/hod/Dashboard.tsx:182-184 | exactly the Pending faculty requests, as a subsequence |
| HodDashboardPage.HodDashboard.constructor | src/pages/hod/Dashboard.tsx:132-133 | both tables start as the seed, with unique ids (`Valid`) |
| HodDashboardPage.HodDashboard.HandleStudentRequestAction | src/pages/hod/Dashboard.tsx:140-157 | student requests become `ActOnStudentRequests`; faculty requests unchanged; unique ids stay unique |
| HodDashboardPage.HodDashboard.HandleFacultyRequestAction | src/pages/hod/Dashboard.tsx:159-176 | faculty requests become `ActOnFacultyRequests`; student requests unchanged; unique ids stay unique |
| HodDashboardPage.SeedStudentRequestsStartPending | src/pages/hod/Dashboard.tsx:38-94 | every seeded student request is Pending, so the view is the whole seed |
| HodDashboardPage.SeedFacultyRequestsStartPending | src/pages/hod/Dashboard.tsx:96-127 | every seeded faculty request is Pending |
| HodDashboardPage.SeedRequestIdsUnique | src/pages/hod/Dashboard.tsx:38-127 | seeded ids are unique in both tables |
| HodDashboardPage.StudentActionShrinksPending | src/pages/hod/Dashboard.tsx:140-150 | acting on a Pending student request with a unique id removes that id from the view and shrinks it by one |
| HodDashboardPage.FacultyActionShrinksPending | src/pages/hod/Dashboard.tsx:159-169 | the same for faculty requests |
| HodDashboardPage.StudentActionOnMissingIdChangesNothing | src/pages/hod/Dashboard.tsx:142-149 | a student request action on an id absent from the student requests leaves them unchanged, whatever the faculty table holds |
| HodDashboardPage.FacultyActionOnMissingIdChangesNothing | src/pages/hod/Dashboard.tsx:161-168 | a faculty request action on an id absent from the faculty requests leaves them unchanged, whatever the student table holds |
| HodDashboardPage.StudentButtonsOnlyResolvePending | src/pages/hod/Dashboard.tsx:262-303 | with unique student request ids, an Approve/Reject button on a row of the Pending student view changes only a Pending student request |
| HodDashboardPage.FacultyButtonsOnlyResolvePending | src/pages/hod/Dashboard.tsx:337-370 | with unique faculty request ids, a button on a row of the Pending faculty view changes only a Pending faculty request |
| HodDashboardPage.ActionKeepsStudentIdsUnique | src/pages/hod/Dashboard.tsx:141-150 | an action rewrites only a status, so unique student request ids stay unique |
| HodDashboardPage.ActionKeepsFacultyIdsUnique | src/pages/hod/Dashboard.tsx:160-169 | the same for faculty request ids |
| AuthContext.Authenticate | src/contexts/AuthContext.tsx:32-42 | a success names the first directory entry with exactly that email, which has that password, and returns its role |
| AuthContext.LoginSucceedsIff | src/contexts/AuthContext.tsx:32-34 | login succeeds iff the first entry with exactly that email (case-sensitive) has the password |
| AuthContext.DirectoryRolesKnown | src/contexts/AuthContext.tsx:6-12 | every directory role is student, faculty or hod |
| AuthContext.LoginRoleKnown | src/contexts/AuthContext.tsx:32-36 | a successful login's role is student, faculty or hod |
| AuthContext.AuthProvider.constructor | src/contexts/AuthContext.tsx:24-25 | the session starts signed out with no role |
| AuthContext.AuthProvider.Login | src/contexts/AuthContext.tsx:27-43 | returns whether authentication succeeds; success signs in with the entry's role; failure leaves the session unchanged; the session invariant is kept |
| AuthContext.AuthProvider.Logout | src/contexts/AuthContext.tsx:45-49 | signs out and clears the role |

## Left out

- Rendering, CSS classes, badges, dialog layout, toasts and navigation are left out. They hold no workflow state. The `submitted` result of the two submit methods only says which toast would show.
- The clock is left out. The date that `answerQuestion` reads from `new Date()` is the `today`/`date` parameter.
- The half-second simulated delay and the Promise of `login` are left out. `Login` is synchronous.
- React's batching of state updates is left out. Each handler is a sequence of atomic updates, and no state-setter is called twice in one handler.
- `Truthy` does not model NaN, which no screen stores as a selection.
- `handleViewStudentDashboard` and `getStudentById` on the faculty pages only feed navigation and a toast.
- The dialogs' Cancel button and `onOpenChange` only close a dialog.
- The HOD page's `handleLogout` is `AuthProvider.Logout` followed by navigation.
- The student pages, the `StudentContext` store they call, and the faculty navigation bar are not part of this model.
- The database connection and the two document schemas hold no workflow logic, so they are not part of this model either.
- These lemmas assume unique ids: `Records.UpdateShrinksViewByOne`, `Records.RowActionTouchesOnlyViewRows`, `FacultyDashboardPage.AnsweringShrinksStudentQuestions`, `NotificationPage.DecisionShrinksPendingByOne`, `NotificationPage.ButtonsOnlyDecidePending`, `HodDashboardPage.StudentActionShrinksPending`, `HodDashboardPage.FacultyActionShrinksPending`, `HodDashboardPage.StudentButtonsOnlyResolvePending` and `HodDashboardPage.FacultyButtonsOnlyResolvePending`. The code does not check ids. The seeds have unique ids (`SeedIsConsistent`, `SeedRequestIdsUnique`), and the store and the HOD dashboard keep them unique (`FacultyProvider.Valid`, `HodDashboard.Valid`). With duplicate ids, `map` would rewrite every record that shares the id.
- Ids are JavaScript numbers, modelled as `int`. Every id comes from an integer literal in the seeds, so fractional ids and NaN never occur.
- AuthContext.Authenticate: its own contract gives only what a success returns. When login fails is stated by `LoginSucceedsIff`.
