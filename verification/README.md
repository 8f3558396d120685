# Exam tool: verified model of the exam logic

A Dafny model of the pure decision logic of a browser-based exam tool built with
React. Most of the application is markup and calls to a hosted backend; four
pieces decide behaviour and are modelled here:

- **Exam phase** (`ExamPhase`, from the candidate dashboard): the phase of an exam
  (`Upcoming`, `Available`, `Expired`, `Completed`) from the clock, the exam's
  window and the first submission record, and the card button derived from it.
- **Exam room** (`ExamRoom` and `ClockFormat`): the two-hour countdown, its
  `HH:MM:SS` display, the question cursor with its Previous / Next / Submit
  buttons, and the answer map. One model serves the routed room
  (`components/exam/ExamRoom.jsx`) and the older multiple-choice room
  (`components/ExamRoom.jsx`); the `Layout` parameter captures their two
  differences: the older room renders its question panel, buttons included,
  only while the cursor names an existing question, and it has no code
  editor or essay box, so only the routed room accepts text edits. The countdown,
  `formatTime`, clamps and answer writes are line-for-line the same in both
  files (routed 47-61 and 159-179 match legacy 27-41 and 84-104).
- **Exam authoring** (`CreateExam`): the edits to the drafted question's option
  list and correct-answer index list, the mode and type resets, and appending
  the draft to the exam.
- **Access** (`Access` and `Login`): the route guard's decision, the route
  table's role lists, the guard's user state, and the sign-in handler's
  role-to-landing-route switch and error path.

The React effect loop is modelled as discrete transitions on immutable records:
`Tick` is one interval callback, `Step` one user or timer event, `Apply` one
authoring edit. Timestamps are integers. Remaining time is a `nat`. Strings are
`seq<char>`.

Behaviour of the code worth knowing:

- an exam whose start is after its end is Upcoming before the start and
  Expired from the start on; it is never Available;
- a chosen multiple-choice answer is stored as the option's text, not its
  index, so two options with the same text are checked together
  (`ExamRoom.SelectChecksByText`);
- submitting, by the Submit button or by the timer, only navigates to
  `/dashboard`; the answers are not sent anywhere;
- the sign-in form writes the role the user picked into the user's metadata,
  and "super-admin" is preselected, so any account can reach the super-admin
  page, even without touching the select (`Login.ChosenRoleIsTrusted`,
  `Login.UntouchedFormLandsOnSuperAdmin`);
- an exam's phase is computed once, when the exam list is fetched, so a card
  keeps its phase and button state until the list is fetched again (an
  Upcoming card stays disabled past its start until a reload);
- a card for a completed exam says "View Results" but its button is disabled
  (`ExamPhase.ViewResultsDisabled`).

Properties proved beyond the single-call contracts: the clock display has an
inverse parser; the countdown submits after an exact number of ticks; the room's
events and the authoring edits preserve invariants (`RoomInv`, `WellFormed`);
toggling a correct answer twice restores it; removing an option keeps the marked
option texts; added questions are kept in order; and every landing route admits
the role that led there.

## Model

| member | source | states |
|---|---|---|
| ExamPhase.FirstSubmission | components/dashboards/SeekerDashboard.jsx:49 | the record read is the first one, present exactly when the list exists and is non-empty |
| ExamPhase.PhaseOf | components/dashboards/SeekerDashboard.jsx:45-55 | Completed iff the first record's status is "completed"; otherwise Upcoming iff now < start, Expired iff start <= now and now > end, Available iff start <= now <= end (both ends inclusive, no start <= end demanded) |
| ExamPhase.CardButton | components/dashboards/SeekerDashboard.jsx:96-105 | the start button is enabled iff the phase is Available; its caption is "View Results" iff Completed and "Start Exam" otherwise; a click targets the exam's room |
| ExamPhase.PhaseMonotone | components/dashboards/SeekerDashboard.jsx:51-54 | for a fixed exam a later clock never yields an earlier phase in the order Upcoming, Available, Expired |
| ExamPhase.OnlyFirstSubmissionCounts | components/dashboards/SeekerDashboard.jsx:49-51 | records after the first never change the phase |
| ExamPhase.NotCompletedWithoutRecord | components/dashboards/SeekerDashboard.jsx:49-51 | an absent first record, or one in another status, never gives Completed |
| ExamPhase.ViewResultsDisabled | components/dashboards/SeekerDashboard.jsx:98-105 | a card captioned "View Results" has its button disabled |
| ExamPhase.CanStart | components/dashboards/SeekerDashboard.jsx:57 | only Available unlocks the exam; Upcoming, Expired and Completed all lock it |
| ExamPhase.ClickCard | components/dashboards/SeekerDashboard.jsx:96-98 | a click navigates iff the exam is Available, and then to that exam's room |
| ExamPhase.CardOpensRoomIffAvailable | components/dashboards/SeekerDashboard.jsx:96-98 | a signed-in candidate of any role reaches the exam room from the card exactly when the exam is Available |
| ExamRoom.QuestionAt | components/exam/ExamRoom.jsx:69-70 | the current question exists exactly when the cursor is inside the list |
| ExamRoom.Submit | components/exam/ExamRoom.jsx:63-66 | submitting navigates to /dashboard and changes nothing else |
| ExamRoom.Settle | components/ExamRoom.jsx:27-34 | the effect submits exactly when a shown room has reached zero and otherwise leaves the room alone |
| ExamRoom.Start | components/exam/ExamRoom.jsx:11-13 | the mounted room is shown with 7200 seconds, cursor 0 and no answers |
| ExamRoom.Open | components/exam/ExamRoom.jsx:11-13 | the room opens with the given seconds, cursor 0 and no answers, and is shown iff time is left |
| ExamRoom.Tick | components/exam/ExamRoom.jsx:47-54 | a tick lowers a shown room's counter by exactly one, submits when it reaches zero, keeps the timer invariant, and does nothing once the room is left |
| ExamRoom.CountdownExact | components/ExamRoom.jsx:27-34 | from n > 0 seconds, k < n ticks give n - k seconds with the room shown, and tick n submits with the counter at zero |
| ExamRoom.TicksAfterLeaving | components/exam/ExamRoom.jsx:47-66 | after navigating away no tick changes anything, so submission by the timer happens at most once |
| ExamRoom.SubmittedAfterExactly | components/exam/ExamRoom.jsx:47-53 | a room opened with n > 0 seconds is shown after every k < n ticks and submitted after exactly n |
| ClockFormat.Split | components/exam/ExamRoom.jsx:56-59 | hours * 3600 + minutes * 60 + seconds equals the input, minutes and seconds below 60 |
| ClockFormat.Pad2 | components/ExamRoom.jsx:40 | a field is at least two digits, exactly two below 100, and denotes the number |
| ClockFormat.FormatTime | components/ExamRoom.jsx:36-41 | the display is at least 8 characters, exactly 8 below 100 hours |
| ClockFormat.FormatRoundTrip | components/exam/ExamRoom.jsx:56-61 | parsing the display gives back the seconds it was made from |
| ClockFormat.FormatInjective | components/ExamRoom.jsx:36-41 | two different numbers of seconds never show the same display |
| ClockFormat.ExamDurationDisplay | components/ExamRoom.jsx:8-41 | 7200 seconds show as "02:00:00" |
| ExamRoom.Prev | components/exam/ExamRoom.jsx:159 | Previous never goes below 0 and moves a positive cursor back by one |
| ExamRoom.Next | components/exam/ExamRoom.jsx:167 | Next never passes len - 1 and moves a cursor before it forward by one |
| ExamRoom.Controls | components/ExamRoom.jsx:57-104 | Previous is enabled iff the cursor is not 0; Submit rather than Next is offered iff the cursor is at or past len - 1; the legacy room shows the row only for an existing question |
| ExamRoom.SetAnswer | components/exam/ExamRoom.jsx:85-88 | an answer write sets the current question's key and leaves every other key as it was |
| ExamRoom.Checked | components/ExamRoom.jsx:71 | no radio is checked for a question without a stored answer, and a checked radio's text is the stored answer for that question |
| ExamRoom.InputValue | components/exam/ExamRoom.jsx:85-131 | a radio stores its option's text when the question is multiple-choice and the index exists; a text edit stores the text only for a coding or essay question in the routed room; nothing else stores a value |
| ExamRoom.EssayText | components/exam/ExamRoom.jsx:128 | an essay with no stored answer shows the empty string, otherwise the stored text |
| ExamRoom.LatestWriteWins | components/exam/ExamRoom.jsx:129-132 | a second write to the same question replaces the first |
| ExamRoom.WritesCommute | components/ExamRoom.jsx:72-75 | writes to different questions do not interfere |
| ExamRoom.Step | components/exam/ExamRoom.jsx:157-179 | once left, every event is ignored; only ticks change the time, only inputs the answers, only Previous/Next the cursor; leaving happens exactly on the last tick or on the offered Submit at the last question; an input writes its value under the current question's id and leaves every other answer alone |
| ExamRoom.StartSatisfiesInv | components/ExamRoom.jsx:8-9 | the mounted room is shown with 7200 seconds and satisfies the room invariant |
| ExamRoom.StepPreservesInv | components/ExamRoom.jsx:83-104 | every event keeps the cursor in [0, len - 1] (at 0 for an empty list) and a shown room with time left |
| ExamRoom.RunPreservesInv | components/exam/ExamRoom.jsx:157-179 | any sequence of events keeps the room invariant |
| ExamRoom.RepeatedNext | components/exam/ExamRoom.jsx:165-171 | m clicks on Next leave the cursor at min(len - 1, current + m): clicks at the last question are no-ops |
| ExamRoom.RepeatedPrev | components/ExamRoom.jsx:83-85 | m clicks on Previous leave the cursor at max(0, current - m) |
| ExamRoom.ButtonsMoveByOne | components/exam/ExamRoom.jsx:158-171 | in a well-formed room an enabled Previous moves back by one and an offered Next forward by one |
| ExamRoom.SelectChecksByText | components/ExamRoom.jsx:70-75 | after choosing option i, a radio is checked iff its text equals option i's text |
| ExamRoom.EditShowsText | components/exam/ExamRoom.jsx:126-132 | an essay edit is what the box shows afterwards |
| ExamRoom.NoQuestionNoInput | components/ExamRoom.jsx:57 | with the cursor outside the list, input events change nothing |
| CreateExam.AddOption | components/exam/CreateExam.jsx:29-34 | exactly one empty option is appended; the existing options, correct answers, mode, type and text fields are unchanged |
| CreateExam.ChangeOption | components/exam/CreateExam.jsx:36-43 | only option i changes, to the new value, the length is kept, and every other field is unchanged |
| CreateExam.ToggledCorrect | components/exam/CreateExam.jsx:45-50 | single-answer mode gives exactly [i]; multiple-answer mode flips i's membership and leaves every other index's, appending i when absent |
| CreateExam.ToggleCorrect | components/exam/CreateExam.jsx:45-56 | a toggle changes only the correct-answer list: options, mode, type, text, language, template, samples and word minimum are kept |
| CreateExam.RemoveAll | components/exam/CreateExam.jsx:63 | the filter keeps exactly the indices other than the removed one |
| CreateExam.Shift | components/exam/CreateExam.jsx:64 | every index above the removed one moves down by one, the others stay, length kept |
| CreateExam.RemoveAt | components/exam/CreateExam.jsx:61 | the option at k is dropped, the list is one shorter, and the rest keep their order |
| CreateExam.RemoveOption | components/exam/CreateExam.jsx:58-66 | removal drops the option and re-indexes the correct answers, leaving mode, type and text fields |
| CreateExam.SetMultipleCorrect | components/exam/CreateExam.jsx:117-121 | flipping the mode sets it and clears the correct answers, keeping options, type and text fields |
| CreateExam.SetQuestionType | components/exam/CreateExam.jsx:333-338 | a type change clears the correct answers and resets options to [""] for MCQ and [] otherwise, keeping mode and text fields |
| CreateExam.AddQuestion | components/exam/CreateExam.jsx:68-85 | the draft is appended (length + 1, prefix unchanged), the exam's other fields are kept, and the form returns to the default draft |
| CreateExam.SingleToggleIdempotent | components/exam/CreateExam.jsx:50 | in single-answer mode toggling twice equals toggling once |
| CreateExam.MultiToggleInvolution | components/exam/CreateExam.jsx:46-49 | in multiple-answer mode toggling twice restores membership, and the list itself when i was unmarked |
| CreateExam.ToggleKeepsNoDup | components/exam/CreateExam.jsx:46-50 | toggling never lists an index twice |
| CreateExam.RemovalKeepsMarkedTexts | components/exam/CreateExam.jsx:58-65 | after removal the marked option texts are the old ones minus the removed option's, in order, and in-range indices stay in range |
| CreateExam.RemovalKeepsNoDup | components/exam/CreateExam.jsx:62-64 | re-indexing never lists an index twice |
| CreateExam.AddQuestionsInOrder | components/exam/CreateExam.jsx:68-72 | adding drafts one after another leaves the old questions followed by the drafts in order, with the exam's other fields kept |
| CreateExam.Offered | components/exam/CreateExam.jsx:93-161 | option controls exist only for an MCQ draft and a listed option, the delete button only while more than one option is left, and the type select and mode checkbox fire only on a real change |
| CreateExam.DefaultWellFormed | components/exam/CreateExam.jsx:16-27 | the initial draft is well formed |
| CreateExam.EditsPreserveWellFormed | components/exam/CreateExam.jsx:117-161 | every offered edit keeps indices in range and distinct, at most one in single-answer mode, and an option in an MCQ draft |
| Access.GuardOf | App.jsx:63-112 | only / and /register are unguarded; every role list includes super-admin and excludes seeker |
| Access.Decide | App.jsx:35-52 | spinner iff loading; redirect to / iff loaded with no user; redirect to /dashboard iff a role list is given and the role is not in it; children otherwise |
| Access.RouteTableRoles | App.jsx:63-112 | /super-admin admits only super-admin; /admin, /create-exam and /reports admit exactly admin and super-admin; /dashboard and exam rooms admit every signed-in user |
| Access.RedirectSettles | App.jsx:43-88 | every redirect lands on a route that renders for the same user, so a signed-in user is redirected at most once |
| Access.Mounted | App.jsx:16-17 | a freshly mounted guard shows the spinner |
| Access.FetchDone | App.jsx:20-24 | the initial fetch sets the user and ends loading |
| Access.AuthChanged | App.jsx:28-30 | an auth change sets the user to the session's user, or none without a session, and leaves loading alone |
| Access.SignOutRedirects | App.jsx:28-45 | after a sign-out every guarded route redirects to / whatever its role list |
| Login.InitialForm | components/auth/Login.jsx:10-12 | the form starts with super-admin preselected, no error and not busy |
| Login.UntouchedFormLandsOnSuperAdmin | components/auth/Login.jsx:10-35 | a user who never touches the role select lands on /super-admin and is admitted there |
| Login.LandingRoute | components/auth/Login.jsx:33-42 | super-admin lands on /super-admin, admin on /admin, any other role on /dashboard |
| Login.ChooseRole | components/auth/Login.jsx:88-92 | choosing a role changes only the role |
| Login.BeginSubmit | components/auth/Login.jsx:15-18 | a submit clears the error and sets loading |
| Login.Submit | components/auth/Login.jsx:15-48 | loading ends on both paths; a sign-in error is shown and nothing is signed in or navigated; on success the error is clear, the role is written when the update applies, and the role's landing route is chosen |
| Login.LandingAdmitted | components/auth/Login.jsx:29-42 | for every role the landing route admits the signed-in user once the role is written |
| Login.LandingWithoutSavedRole | components/auth/Login.jsx:28-42 | if the role write did not apply, the landing route renders or redirects once to /dashboard, which renders |
| Login.ChosenRoleIsTrusted | components/auth/Login.jsx:28-35 | any account that signs in with super-admin chosen is admitted to /super-admin |

## Left out

- Backend queries: the exam fetch and eligibility filter of the candidate dashboard, sign-up, the admin and super-admin dashboards, reports, the navigation bar and the demo dashboard. The dashboard lists only exams the query returned as eligible; the model takes each exam row as given.
- Date parsing and locale rendering: timestamps are integers, so invalid dates (whose comparisons are always false in JavaScript) are not modelled.
- React scheduling: `setInterval`, effect cleanup and re-render timing are modelled only as the discrete `Tick` and `Step` transitions.
- The webcam, code editor and terminal widgets: foreign UI libraries. The code editor's `undefined` value on clearing is not modelled; an edit carries a string.
- ExamRoom.Step: the routed room's exam type is fixed state that is never changed, and its sample question lists are hard-coded; the model takes the question list as a parameter and lets each question carry its kind.
- CreateExam.ChangeOption: requires the index to name an option; JavaScript would grow a sparse array past the end, which the form never asks for.
- CreateExam: the plain field setters (question text, language, template, samples, word minimum via `parseInt`, exam title, duration, date, time) are one-field overwrites and are left out; `handleSubmit` only navigates.
- Login.Submit: a metadata update that throws is not modelled; only one that silently fails to apply (`roleSaved = false`) is.
- Access: URL matching by the router (trailing slashes, the `:id` segment) is replaced by the `Route` datatype; a user fetch that never resolves leaves the guard loading, which needs no transition.
