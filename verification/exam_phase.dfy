/**
  The candidate's exam list (components/dashboards/SeekerDashboard.jsx): the
  phase of each exam from the clock and the first submission record, and the
  card's start button derived from it. Timestamps are integers (milliseconds).
  The phase is computed once, when the exam list is fetched, so `now` is the
  time of that fetch: a card keeps its phase, and its button state, until the
  list is fetched again.
 */
module ExamPhase {
  import opened Wrappers
  import Access

  /** A submission record as the exam query returns it; only `status` is read. */
  datatype Submission = Submission(status: string)

  /**
    An exam row of the query: its window and the joined submission records,
    which may be missing altogether.
   */
  datatype ExamRow = ExamRow(id: string, start: int, end: int, submissions: Option<seq<Submission>>)

  datatype Phase = Upcoming | Available | Expired | Completed

  const CompletedStatus: string := "completed"

  /** `exam.exam_submissions?.[0]`. */
  function FirstSubmission(e: ExamRow): (s: Option<Submission>)
    ensures s.Some? <==> e.submissions.Some? && |e.submissions.value| > 0
    ensures s.Some? ==> s.value == e.submissions.value[0]
  {
    match e.submissions
    case None => None
    case Some(subs) => if |subs| > 0 then Some(subs[0]) else None
  }

  /** The first submission exists and its status is exactly "completed". */
  predicate IsCompleted(e: ExamRow) {
    var s := FirstSubmission(e);
    s.Some? && s.value.status == CompletedStatus
  }

  /**
    `getExamStatus`: completion wins; then a start still ahead; then an end
    already passed; otherwise the exam is open. Both ends of the window are
    inclusive, and nothing demands `start <= end`.
   */
  function PhaseOf(e: ExamRow, now: int): (p: Phase)
    ensures p == Completed <==> IsCompleted(e)
    ensures p == Upcoming <==> !IsCompleted(e) && now < e.start
    ensures p == Expired <==> !IsCompleted(e) && e.start <= now && e.end < now
    ensures p == Available <==> !IsCompleted(e) && e.start <= now <= e.end
  {
    if IsCompleted(e) then Completed
    else if now < e.start then Upcoming
    else if now > e.end then Expired
    else Available
  }

  /** `canStartExam`. */
  predicate CanStart(p: Phase)
    ensures CanStart(p) <==> !(p == Upcoming || p == Expired || p == Completed)
  {
    p == Available
  }

  /** The button on an exam card: whether it is enabled, its caption, and where a click goes. */
  datatype Button = Button(enabled: bool, caption: string, target: Access.Route)

  function CardButton(e: ExamRow, now: int): (b: Button)
    ensures b.enabled <==> PhaseOf(e, now) == Available
    ensures b.caption == "View Results" <==> PhaseOf(e, now) == Completed
    ensures b.caption != "View Results" ==> b.caption == "Start Exam"
    ensures b.target == Access.ExamRoom(e.id)
  {
    var p := PhaseOf(e, now);
    Button(CanStart(p), if p == Completed then "View Results" else "Start Exam", Access.ExamRoom(e.id))
  }

  /** The rank of a phase along the clock, used to state that phases only move forward. */
  function Rank(p: Phase): nat {
    match p
    case Upcoming => 0
    case Available => 1
    case Expired => 2
    case Completed => 3
  }

  /** For a fixed exam, a later clock never yields an earlier phase. */
  lemma PhaseMonotone(e: ExamRow, now1: int, now2: int)
    requires now1 <= now2
    ensures Rank(PhaseOf(e, now1)) <= Rank(PhaseOf(e, now2))
  {
  }

  /** Only the first submission record is consulted: later records never change the phase. */
  lemma OnlyFirstSubmissionCounts(e: ExamRow, s: Submission, rest1: seq<Submission>, rest2: seq<Submission>, now: int)
    ensures PhaseOf(e.(submissions := Some([s] + rest1)), now) == PhaseOf(e.(submissions := Some([s] + rest2)), now)
  {
  }

  /** A row with no submissions, or a first one in any other status, is never Completed. */
  lemma NotCompletedWithoutRecord(e: ExamRow, now: int)
    requires FirstSubmission(e).None? || FirstSubmission(e).value.status != CompletedStatus
    ensures PhaseOf(e, now) != Completed
  {
  }

  /** A card labelled "View Results" is never clickable. */
  lemma ViewResultsDisabled(e: ExamRow, now: int)
    requires CardButton(e, now).caption == "View Results"
    ensures !CardButton(e, now).enabled
  {
  }

  /** A click on the card's button: a disabled button does nothing, an enabled one navigates. */
  function ClickCard(e: ExamRow, now: int): (r: Option<Access.Route>)
    ensures r.Some? <==> PhaseOf(e, now) == Available
    ensures r.Some? ==> r.value == Access.ExamRoom(e.id)
  {
    var b := CardButton(e, now);
    if b.enabled then Some(b.target) else None
  }

  /**
    A signed-in candidate, whatever their role, gets into the exam room from
    the card exactly when the exam is Available.
   */
  lemma CardOpensRoomIffAvailable(e: ExamRow, now: int, role: Option<string>)
    ensures (ClickCard(e, now).Some? && Access.Admits(ClickCard(e, now).value, role))
            <==> PhaseOf(e, now) == Available
  {
  }
}
