/**
  The exam room: the routed room (components/exam/ExamRoom.jsx) and its older
  multiple-choice-only copy (components/ExamRoom.jsx) share one model. The
  room's React state becomes a `Room` record and each user or timer event a
  transition on it.
 */
module ExamRoom {
  import opened Wrappers
  import Access

  /** The countdown's initial value: two hours in seconds. */
  const ExamSeconds: nat := 7200

  /** Where `submitExam` navigates. */
  const AfterSubmitPath: string := Access.PathOf(Access.Dashboard)

  /** The kind-specific part of a question. */
  datatype Body =
    | Mcq(options: seq<string>)
    | Coding(language: string, template: string)
    | Essay(minWords: int)

  datatype Question = Question(id: int, body: Body)

  /** Which of the two rooms: the legacy one renders its whole panel only for an existing question. */
  datatype Layout = Routed | Legacy

  /** Whether the room is still shown, or the app has navigated away from it. */
  datatype Screen = InRoom | Left(path: string)

  /** The room's state: seconds left, question cursor, answers keyed by question id, and the screen. */
  datatype Room = Room(timeLeft: nat, current: int, answers: map<int, string>, screen: Screen)

  /** `questions[i]`, which is `undefined` outside the list. */
  function QuestionAt(qs: seq<Question>, i: int): (q: Option<Question>)
    ensures q.Some? <==> 0 <= i < |qs|
    ensures q.Some? ==> q.value == qs[i]
  {
    if 0 <= i < |qs| then Some(qs[i]) else None
  }

  // ---------------------------------------------------------------- timer

  /** `submitExam`: navigate to the dashboard, which unmounts the room and clears its timer. */
  function Submit(r: Room): (r': Room)
    ensures r'.screen == Left(AfterSubmitPath)
    ensures r'.timeLeft == r.timeLeft && r'.current == r.current && r'.answers == r.answers
  {
    r.(screen := Left(AfterSubmitPath))
  }

  /**
    The countdown effect, run whenever `timeLeft` changes while the room is
    shown: with time left it schedules the next tick, at zero it submits.
   */
  function Settle(r: Room): (r': Room)
    ensures r.screen.InRoom? && r.timeLeft == 0 ==> r' == Submit(r)
    ensures !(r.screen.InRoom? && r.timeLeft == 0) ==> r' == r
  {
    if r.screen.InRoom? && r.timeLeft == 0 then Submit(r) else r
  }

  /** The room as mounted with `n` seconds on the clock, after its first effect run. */
  function Open(n: nat): (r: Room)
    ensures r.timeLeft == n && r.current == 0 && r.answers == map[]
    ensures r.screen.InRoom? <==> n > 0
  {
    Settle(Room(n, 0, map[], InRoom))
  }

  /** The room as the application mounts it. */
  function Start(): (r: Room)
    ensures r.timeLeft == ExamSeconds && r.screen.InRoom?
    ensures r.current == 0 && r.answers == map[]
  {
    Open(ExamSeconds)
  }

  /** The timer's invariant: a shown room always has time left. */
  predicate TimerInv(r: Room) {
    r.screen.InRoom? ==> r.timeLeft > 0
  }

  /**
    One interval callback: while the room is shown and time is left, the
    counter drops by exactly one and the effect runs again. Once the room is
    gone no interval exists, so nothing changes.
   */
  function Tick(r: Room): (r': Room)
    ensures r.screen.InRoom? && r.timeLeft > 1 ==> r' == r.(timeLeft := r.timeLeft - 1)
    ensures r.screen.InRoom? && r.timeLeft == 1 ==>
              r' == r.(timeLeft := 0, screen := Left(AfterSubmitPath))
    ensures r.screen.Left? ==> r' == r
    ensures TimerInv(r) ==> TimerInv(r')
  {
    if r.screen.InRoom? && r.timeLeft > 0 then Settle(r.(timeLeft := r.timeLeft - 1)) else r
  }

  /** `k` interval callbacks in a row. */
  function Ticks(r: Room, k: nat): Room
    decreases k
  {
    if k == 0 then r else Ticks(Tick(r), k - 1)
  }

  /**
    From a shown room with `n` seconds left, the first `k < n` ticks only count
    down, and tick `n` submits with the counter at zero.
   */
  lemma {:induction false} CountdownExact(r: Room, k: nat)
    requires r.screen.InRoom? && 0 < r.timeLeft && k <= r.timeLeft
    ensures k < r.timeLeft ==> Ticks(r, k) == r.(timeLeft := r.timeLeft - k)
    ensures k == r.timeLeft ==> Ticks(r, k) == r.(timeLeft := 0, screen := Left(AfterSubmitPath))
    decreases k
  {
    if k > 0 {
      if r.timeLeft == 1 {
        assert k == 1;
        assert Ticks(r, k) == Ticks(Tick(r), 0) == Tick(r);
      } else {
        CountdownExact(Tick(r), k - 1);
      }
    }
  }

  /** After navigating away, further ticks change nothing: submission happens at most once. */
  lemma {:induction false} TicksAfterLeaving(r: Room, k: nat)
    requires r.screen.Left?
    ensures Ticks(r, k) == r
    decreases k
  {
    if k > 0 {
      TicksAfterLeaving(Tick(r), k - 1);
    }
  }

  /**
    A room opened with `n > 0` seconds is still shown after every `k < n`
    ticks and has submitted, exactly once, after `n` ticks.
   */
  lemma SubmittedAfterExactly(n: nat, extra: nat)
    requires n > 0
    ensures forall k :: 0 <= k < n ==> Ticks(Open(n), k).screen.InRoom? && Ticks(Open(n), k).timeLeft == n - k
    ensures Ticks(Open(n), n).screen == Left(AfterSubmitPath) && Ticks(Open(n), n).timeLeft == 0
    ensures Ticks(Ticks(Open(n), n), extra) == Ticks(Open(n), n)
  {
    forall k | 0 <= k < n
      ensures Ticks(Open(n), k).screen.InRoom? && Ticks(Open(n), k).timeLeft == n - k
    {
      CountdownExact(Open(n), k);
    }
    CountdownExact(Open(n), n);
    TicksAfterLeaving(Ticks(Open(n), n), extra);
  }

  // ----------------------------------------------------------- navigation

  /** The Previous button's update, `Math.max(0, q - 1)`. */
  function Prev(q: int): (q': int)
    ensures q' >= 0
    ensures q > 0 ==> q' == q - 1
    ensures q <= 0 ==> q' == 0
  {
    if q - 1 > 0 then q - 1 else 0
  }

  /** The Next button's update, `Math.min(len - 1, q + 1)`. */
  function Next(q: int, len: nat): (q': int)
    ensures q' <= len - 1
    ensures q < len - 1 ==> q' == q + 1
    ensures q >= len - 1 ==> q' == len - 1
  {
    if len - 1 < q + 1 then len - 1 else q + 1
  }

  /** The button offered on the right: Next before the last question, Submit from the last on. */
  datatype Forward = NextButton | SubmitButton

  /** The navigation row: whether Previous is enabled, and which right-hand button shows. */
  datatype Footer = Footer(prevEnabled: bool, forward: Forward)

  /** The navigation row for cursor `q`, or none where the legacy room renders no panel. */
  function Controls(layout: Layout, qs: seq<Question>, q: int): (c: Option<Footer>)
    ensures c.Some? <==> layout.Routed? || 0 <= q < |qs|
    ensures c.Some? ==> (c.value.prevEnabled <==> q != 0)
    ensures c.Some? ==> (c.value.forward == SubmitButton <==> q >= |qs| - 1)
  {
    if layout.Legacy? && QuestionAt(qs, q).None? then None
    else Some(Footer(q != 0, if q < |qs| - 1 then NextButton else SubmitButton))
  }

  // -------------------------------------------------------------- answers

  /** `setAnswers({...answers, [id]: value})`. */
  function SetAnswer(m: map<int, string>, id: int, v: string): (m': map<int, string>)
    ensures id in m' && m'[id] == v
    ensures m'.Keys == m.Keys + {id}
    ensures forall k :: k in m && k != id ==> m'[k] == m[k]
  {
    m[id := v]
  }

  /** A radio is checked when the stored answer equals its option text. */
  predicate Checked(m: map<int, string>, id: int, option: string)
    ensures id !in m ==> !Checked(m, id, option)
    ensures Checked(m, id, option) ==> id in m && m[id] == option
  {
    id in m && m[id] == option
  }

  /** `answers[id] || ''`: the text an essay box shows. */
  function EssayText(m: map<int, string>, id: int): (t: string)
    ensures id !in m ==> t == ""
    ensures id in m ==> t == m[id]
  {
    if id in m then m[id] else ""
  }

  /** A second write to the same question replaces the first. */
  lemma LatestWriteWins(m: map<int, string>, id: int, a: string, b: string)
    ensures SetAnswer(SetAnswer(m, id, a), id, b) == SetAnswer(m, id, b)
  {
  }

  /** Writes to different questions do not interfere. */
  lemma WritesCommute(m: map<int, string>, i: int, j: int, a: string, b: string)
    requires i != j
    ensures SetAnswer(SetAnswer(m, i, a), j, b) == SetAnswer(SetAnswer(m, j, b), i, a)
  {
  }

  // --------------------------------------------------------------- events

  /** What can happen in the room. */
  datatype Event =
    | TimerFired
    | ClickPrev
    | ClickNext
    | ClickSubmit
    | SelectOption(index: nat)   // the radio of option `index` of a multiple-choice question
    | EditText(text: string)     // the code editor or the essay box reports new text

  /** The answer a user input stores for the current question, if that input is on screen. */
  function InputValue(layout: Layout, q: Question, e: Event): (v: Option<string>)
    ensures v.Some? ==> e.SelectOption? || e.EditText?
    ensures e.SelectOption? ==> (v.Some? <==> q.body.Mcq? && e.index < |q.body.options|)
    ensures e.SelectOption? && v.Some? ==> v.value == q.body.options[e.index]
    ensures e.EditText? ==> (v.Some? <==> layout.Routed? && !q.body.Mcq?)
    ensures e.EditText? && v.Some? ==> v.value == e.text
  {
    match e
    case SelectOption(i) =>
      if q.body.Mcq? && i < |q.body.options| then Some(q.body.options[i]) else None
    case EditText(t) =>
      if layout == Routed && !q.body.Mcq? then Some(t) else None
    case _ => None
  }

  /** One event. Once the room is left, every event is ignored. */
  function Step(layout: Layout, qs: seq<Question>, r: Room, e: Event): (r': Room)
    ensures r.screen.Left? ==> r' == r
    ensures e != TimerFired ==> r'.timeLeft == r.timeLeft
    ensures e == TimerFired ==> r' == Tick(r)
    ensures !(e.SelectOption? || e.EditText?) ==> r'.answers == r.answers
    ensures !(e == ClickPrev || e == ClickNext) ==> r'.current == r.current
    ensures r.screen.InRoom? && r'.screen.Left? ==>
              r'.screen == Left(AfterSubmitPath) &&
              ((e == TimerFired && r.timeLeft == 1) ||
               (e == ClickSubmit && Controls(layout, qs, r.current).Some?
                && r.current >= |qs| - 1))
    ensures (r.screen.InRoom? && e == ClickSubmit && Controls(layout, qs, r.current).Some? &&
             r.current >= |qs| - 1) ==> r' == Submit(r)
    ensures r.screen.InRoom? && (e.SelectOption? || e.EditText?) && QuestionAt(qs, r.current).Some? ==>
              r'.answers == (var q := QuestionAt(qs, r.current).value;
                             var v := InputValue(layout, q, e);
                             if v.Some? then SetAnswer(r.answers, q.id, v.value) else r.answers)
  {
    if r.screen.Left? then r
    else
      match e
      case TimerFired => Tick(r)
      case ClickPrev =>
        var c := Controls(layout, qs, r.current);
        if c.Some? && c.value.prevEnabled then r.(current := Prev(r.current)) else r
      case ClickNext =>
        var c := Controls(layout, qs, r.current);
        if c.Some? && c.value.forward == NextButton then r.(current := Next(r.current, |qs|)) else r
      case ClickSubmit =>
        var c := Controls(layout, qs, r.current);
        if c.Some? && c.value.forward == SubmitButton then Submit(r) else r
      case _ =>
        match QuestionAt(qs, r.current)
        case None => r
        case Some(q) =>
          var v := InputValue(layout, q, e);
          if v.Some? then r.(answers := SetAnswer(r.answers, q.id, v.value)) else r
  }

  /** The room's invariant: the timer invariant, and the cursor on a question, or at 0 when there is none. */
  predicate RoomInv(qs: seq<Question>, r: Room) {
    TimerInv(r) && 0 <= r.current && (r.current == 0 || r.current < |qs|)
  }

  lemma StartSatisfiesInv(qs: seq<Question>)
    ensures RoomInv(qs, Start()) && Start().screen.InRoom? && Start().timeLeft == ExamSeconds
  {
  }

  /** Every event keeps the cursor in `[0, len - 1]` and the timer invariant. */
  lemma StepPreservesInv(layout: Layout, qs: seq<Question>, r: Room, e: Event)
    requires RoomInv(qs, r)
    ensures RoomInv(qs, Step(layout, qs, r, e))
  {
  }

  /**
    In a well-formed room the buttons never need their clamps: an enabled
    Previous moves back by one, an offered Next forward by one.
   */
  lemma ButtonsMoveByOne(layout: Layout, qs: seq<Question>, r: Room)
    requires RoomInv(qs, r) && r.screen.InRoom?
    ensures var c := Controls(layout, qs, r.current);
            c.Some? && c.value.prevEnabled ==> Step(layout, qs, r, ClickPrev).current == r.current - 1
    ensures var c := Controls(layout, qs, r.current);
            c.Some? && c.value.forward == NextButton ==> Step(layout, qs, r, ClickNext).current == r.current + 1
  {
  }

  /**
    Choosing option `i` checks exactly the radios whose text equals option
    `i`'s text: the stored answer is the text, not the index.
   */
  lemma SelectChecksByText(layout: Layout, qs: seq<Question>, r: Room, i: nat)
    requires r.screen.InRoom?
    requires QuestionAt(qs, r.current).Some? && QuestionAt(qs, r.current).value.body.Mcq?
    requires i < |QuestionAt(qs, r.current).value.body.options|
    ensures var q := QuestionAt(qs, r.current).value;
            var r' := Step(layout, qs, r, SelectOption(i));
            forall j :: 0 <= j < |q.body.options| ==>
              (Checked(r'.answers, q.id, q.body.options[j]) <==> q.body.options[j] == q.body.options[i])
  {
  }

  /** An edit in the routed room's essay box is what the box shows afterwards. */
  lemma EditShowsText(qs: seq<Question>, r: Room, t: string)
    requires r.screen.InRoom?
    requires QuestionAt(qs, r.current).Some? && QuestionAt(qs, r.current).value.body.Essay?
    ensures EssayText(Step(Routed, qs, r, EditText(t)).answers, QuestionAt(qs, r.current).value.id) == t
  {
  }

  /** Outside the question list no input is on screen, so input events change nothing. */
  lemma NoQuestionNoInput(layout: Layout, qs: seq<Question>, r: Room, e: Event)
    requires QuestionAt(qs, r.current).None?
    requires e.SelectOption? || e.EditText?
    ensures Step(layout, qs, r, e) == r
  {
  }

  // ------------------------------------------------------ event sequences

  /** The events in order, the first one first. */
  function Run(layout: Layout, qs: seq<Question>, r: Room, es: seq<Event>): Room
    decreases |es|
  {
    if |es| == 0 then r else Run(layout, qs, Step(layout, qs, r, es[0]), es[1..])
  }

  /** `m` copies of one event. */
  function Repeat(e: Event, m: nat): (es: seq<Event>)
    ensures |es| == m
    decreases m
  {
    if m == 0 then [] else [e] + Repeat(e, m - 1)
  }

  /** Any sequence of events keeps the room invariant. */
  lemma {:induction false} RunPreservesInv(layout: Layout, qs: seq<Question>, r: Room, es: seq<Event>)
    requires RoomInv(qs, r)
    ensures RoomInv(qs, Run(layout, qs, r, es))
    decreases |es|
  {
    if |es| > 0 {
      StepPreservesInv(layout, qs, r, es[0]);
      RunPreservesInv(layout, qs, Step(layout, qs, r, es[0]), es[1..]);
    }
  }

  /**
    Clicking Next `m` times moves the cursor to `min(len - 1, current + m)`:
    clicks at the last question are no-ops, not errors.
   */
  lemma {:induction false} RepeatedNext(layout: Layout, qs: seq<Question>, r: Room, m: nat)
    requires RoomInv(qs, r) && r.screen.InRoom? && |qs| > 0
    ensures Run(layout, qs, r, Repeat(ClickNext, m)).current ==
              if r.current + m < |qs| - 1 then r.current + m else |qs| - 1
    decreases m
  {
    if m > 0 {
      var r' := Step(layout, qs, r, ClickNext);
      assert Repeat(ClickNext, m)[1..] == Repeat(ClickNext, m - 1);
      RepeatedNext(layout, qs, r', m - 1);
    }
  }

  /** Clicking Previous `m` times moves the cursor to `max(0, current - m)`. */
  lemma {:induction false} RepeatedPrev(layout: Layout, qs: seq<Question>, r: Room, m: nat)
    requires RoomInv(qs, r) && r.screen.InRoom?
    ensures Run(layout, qs, r, Repeat(ClickPrev, m)).current ==
              if r.current - m > 0 then r.current - m else 0
    decreases m
  {
    if m > 0 {
      var r' := Step(layout, qs, r, ClickPrev);
      assert Repeat(ClickPrev, m)[1..] == Repeat(ClickPrev, m - 1);
      assert r'.current == if r.current > 0 then r.current - 1 else 0;
      RepeatedPrev(layout, qs, r', m - 1);
    }
  }
}
