/**
  The exam authoring form (components/exam/CreateExam.jsx): edits to the
  question being drafted, chiefly to its option list and to the list of
  indices of its correct options, and appending the draft to the exam.
 */
module CreateExam {

  datatype QuestionType = MCQ | Coding | Essay

  /** The question being drafted, with the form's fields for every question type. */
  datatype Draft = Draft(
    qtype: QuestionType,
    text: string,
    options: seq<string>,
    multipleCorrect: bool,
    correct: seq<nat>,
    language: string,
    sampleInput: string,
    sampleOutput: string,
    codeTemplate: string,
    minWords: int)

  /** The exam being created; only `questions` is changed by the operations modelled here. */
  datatype ExamDraft = ExamDraft(
    title: string,
    examType: QuestionType,
    duration: string,
    date: string,
    time: string,
    questions: seq<Draft>)

  /** The draft the form starts with and returns to after each added question. */
  function DefaultDraft(): Draft {
    Draft(MCQ, "", [""], false, [], "python", "", "", "", 0)
  }

  // ------------------------------------------------------ sequence helpers

  /** Every index names an option of a list of length `n`. */
  predicate InRange(idx: seq<nat>, n: nat) {
    forall j :: 0 <= j < |idx| ==> idx[j] < n
  }

  /** No index is listed twice. */
  predicate NoDup(s: seq<nat>) {
    forall i, j :: 0 <= i < j < |s| ==> s[i] != s[j]
  }

  /** `s.filter(i => i !== x)`. */
  function RemoveAll(s: seq<nat>, x: nat): (r: seq<nat>)
    ensures forall y :: y in r <==> y in s && y != x
    ensures |r| <= |s|
    decreases |s|
  {
    if |s| == 0 then []
    else (if s[0] == x then [] else [s[0]]) + RemoveAll(s[1..], x)
  }

  /** Where index `i` moves when the option at `k` is deleted. */
  function ShiftIndex(i: nat, k: nat): nat {
    if i > k then i - 1 else i
  }

  /** `s.map(i => (i > k ? i - 1 : i))`. */
  function Shift(s: seq<nat>, k: nat): (r: seq<nat>)
    ensures |r| == |s|
    ensures forall j :: 0 <= j < |s| ==> r[j] == ShiftIndex(s[j], k)
    decreases |s|
  {
    if |s| == 0 then [] else [ShiftIndex(s[0], k)] + Shift(s[1..], k)
  }

  /** The list with position `k` dropped; a position outside the list drops nothing. */
  function RemoveAt(s: seq<string>, k: nat): (r: seq<string>)
    ensures k < |s| ==> |r| == |s| - 1
    ensures k >= |s| ==> r == s
    ensures forall j :: 0 <= j < |r| ==> r[j] == s[if j < k then j else j + 1]
  {
    if k < |s| then s[..k] + s[k + 1..] else s
  }

  /** The texts of the options the indices mark, in the order of the indices. */
  function Marked(opts: seq<string>, idx: seq<nat>): (r: seq<string>)
    requires InRange(idx, |opts|)
    ensures |r| == |idx|
    decreases |idx|
  {
    if |idx| == 0 then [] else [opts[idx[0]]] + Marked(opts, idx[1..])
  }

  lemma {:induction false} RemoveAllNoDup(s: seq<nat>, x: nat)
    requires NoDup(s)
    ensures NoDup(RemoveAll(s, x))
    decreases |s|
  {
    if |s| > 0 {
      assert NoDup(s[1..]) by {
        forall i, j | 0 <= i < j < |s[1..]| ensures s[1..][i] != s[1..][j] {
          assert s[1..][i] == s[i + 1] && s[1..][j] == s[j + 1];
        }
      }
      RemoveAllNoDup(s[1..], x);
      var rest := RemoveAll(s[1..], x);
      if s[0] != x {
        assert s[0] !in s[1..] by {
          forall j | 0 <= j < |s[1..]| ensures s[1..][j] != s[0] {
            assert s[1..][j] == s[j + 1];
          }
        }
        assert s[0] !in rest;
        var r := [s[0]] + rest;
        forall i, j | 0 <= i < j < |r| ensures r[i] != r[j] {
          if i == 0 {
            assert r[j] == rest[j - 1];
            assert rest[j - 1] in rest;
          } else {
            assert r[i] == rest[i - 1] && r[j] == rest[j - 1];
          }
        }
      }
    }
  }

  lemma {:induction false} RemoveAllAbsent(s: seq<nat>, x: nat)
    requires x !in s
    ensures RemoveAll(s, x) == s
    decreases |s|
  {
    if |s| > 0 {
      assert x !in s[1..];
      RemoveAllAbsent(s[1..], x);
      assert [s[0]] + s[1..] == s;
    }
  }

  lemma {:induction false} RemoveAllAppend(s: seq<nat>, t: seq<nat>, x: nat)
    ensures RemoveAll(s + t, x) == RemoveAll(s, x) + RemoveAll(t, x)
    decreases |s|
  {
    if |s| > 0 {
      assert (s + t)[1..] == s[1..] + t;
      RemoveAllAppend(s[1..], t, x);
    } else {
      assert s + t == t;
    }
  }

  // ------------------------------------------------------------ the edits

  /**
    The draft's fields that no list edit touches: question text, language,
    code template, samples and word minimum are carried over by the spread.
   */
  predicate KeepsTextFields(d: Draft, d': Draft) {
    && d'.text == d.text
    && d'.language == d.language
    && d'.sampleInput == d.sampleInput
    && d'.sampleOutput == d.sampleOutput
    && d'.codeTemplate == d.codeTemplate
    && d'.minWords == d.minWords
  }

  /** `handleAddOption`: one empty option is appended. */
  function AddOption(d: Draft): (d': Draft)
    ensures |d'.options| == |d.options| + 1 && d'.options[|d.options|] == ""
    ensures d'.options[..|d.options|] == d.options
    ensures d'.correct == d.correct && d'.multipleCorrect == d.multipleCorrect && d'.qtype == d.qtype
    ensures KeepsTextFields(d, d')
  {
    d.(options := d.options + [""])
  }

  /** `handleOptionChange(i, v)`: only option `i` changes. */
  function ChangeOption(d: Draft, i: nat, v: string): (d': Draft)
    requires i < |d.options|
    ensures |d'.options| == |d.options| && d'.options[i] == v
    ensures forall j :: 0 <= j < |d.options| && j != i ==> d'.options[j] == d.options[j]
    ensures d'.correct == d.correct && d'.multipleCorrect == d.multipleCorrect && d'.qtype == d.qtype
    ensures KeepsTextFields(d, d')
  {
    d.(options := d.options[i := v])
  }

  /**
    The new correct-answer list of `handleCorrectAnswerToggle(i)`: with several
    correct answers allowed, `i` is dropped if listed and appended otherwise;
    with one, the list becomes exactly `[i]`.
   */
  function ToggledCorrect(c: seq<nat>, multiple: bool, i: nat): (r: seq<nat>)
    ensures !multiple ==> r == [i]
    ensures multiple ==> forall j :: j in r <==> (j in c) != (j == i)
    ensures multiple && i !in c ==> r == c + [i]
  {
    if multiple then
      if i in c then RemoveAll(c, i) else c + [i]
    else [i]
  }

  /** `handleCorrectAnswerToggle(i)`. */
  function ToggleCorrect(d: Draft, i: nat): (d': Draft)
    ensures d'.options == d.options && d'.multipleCorrect == d.multipleCorrect && d'.qtype == d.qtype
    ensures d'.correct == ToggledCorrect(d.correct, d.multipleCorrect, i)
    ensures KeepsTextFields(d, d')
  {
    d.(correct := ToggledCorrect(d.correct, d.multipleCorrect, i))
  }

  /** The correct-answer list after deleting option `k`: `k` leaves, later indices move down. */
  function Reindexed(c: seq<nat>, k: nat): (r: seq<nat>)
    ensures |r| <= |c|
  {
    Shift(RemoveAll(c, k), k)
  }

  /** `handleRemoveOption(k)`. */
  function RemoveOption(d: Draft, k: nat): (d': Draft)
    ensures d'.options == RemoveAt(d.options, k)
    ensures d'.correct == Reindexed(d.correct, k)
    ensures d'.multipleCorrect == d.multipleCorrect && d'.qtype == d.qtype
    ensures KeepsTextFields(d, d')
  {
    d.(options := RemoveAt(d.options, k), correct := Reindexed(d.correct, k))
  }

  /** The "Multiple Correct Answers" checkbox: the mode changes and the correct answers are cleared. */
  function SetMultipleCorrect(d: Draft, b: bool): (d': Draft)
    ensures d'.multipleCorrect == b && d'.correct == []
    ensures d'.options == d.options && d'.qtype == d.qtype
    ensures KeepsTextFields(d, d')
  {
    d.(multipleCorrect := b, correct := [])
  }

  /** The question type select: options restart as one empty option for MCQ and none otherwise. */
  function SetQuestionType(d: Draft, t: QuestionType): (d': Draft)
    ensures d'.qtype == t && d'.correct == []
    ensures t == MCQ ==> d'.options == [""]
    ensures t != MCQ ==> d'.options == []
    ensures d'.multipleCorrect == d.multipleCorrect && KeepsTextFields(d, d')
  {
    d.(qtype := t, options := if t == MCQ then [""] else [], correct := [])
  }

  /** `handleAddQuestion`: the draft is appended to the exam and the form starts over. */
  function AddQuestion(e: ExamDraft, d: Draft): (res: (ExamDraft, Draft))
    ensures |res.0.questions| == |e.questions| + 1
    ensures res.0.questions[..|e.questions|] == e.questions && res.0.questions[|e.questions|] == d
    ensures res.0.(questions := e.questions) == e
    ensures res.1 == DefaultDraft()
  {
    (e.(questions := e.questions + [d]), DefaultDraft())
  }

  // ----------------------------------------------------------- properties

  /** In single-answer mode, toggling the same option twice is the same as toggling it once. */
  lemma SingleToggleIdempotent(d: Draft, i: nat)
    requires !d.multipleCorrect
    ensures ToggleCorrect(ToggleCorrect(d, i), i) == ToggleCorrect(d, i)
  {
  }

  /**
    In multiple-answer mode, toggling twice restores which options are marked,
    and restores the list itself when `i` was not marked.
   */
  lemma MultiToggleInvolution(d: Draft, i: nat)
    requires d.multipleCorrect
    ensures forall j :: j in ToggleCorrect(ToggleCorrect(d, i), i).correct <==> j in d.correct
    ensures i !in d.correct ==> ToggleCorrect(ToggleCorrect(d, i), i) == d
  {
    if i !in d.correct {
      var c1 := d.correct + [i];
      assert ToggledCorrect(c1, true, i) == RemoveAll(c1, i);
      RemoveAllAppend(d.correct, [i], i);
      RemoveAllAbsent(d.correct, i);
      assert RemoveAll([i], i) == [];
    }
  }

  /** Toggling never lists an index twice. */
  lemma ToggleKeepsNoDup(c: seq<nat>, multiple: bool, i: nat)
    requires NoDup(c)
    ensures NoDup(ToggledCorrect(c, multiple, i))
  {
    if multiple {
      if i in c {
        RemoveAllNoDup(c, i);
      } else {
        var r := c + [i];
        forall a, b | 0 <= a < b < |r| ensures r[a] != r[b] {
          if b == |c| {
            assert r[a] == c[a];
          }
        }
      }
    }
  }

  /**
    Deleting option `k` keeps every other marked option marked under its new
    index: the texts the list marks are those it marked before, minus the
    deleted option's entries, in the same order. Indices in range stay in range.
   */
  lemma {:induction false} RemovalKeepsMarkedTexts(opts: seq<string>, c: seq<nat>, k: nat)
    requires InRange(c, |opts|)
    ensures InRange(RemoveAll(c, k), |opts|)
    ensures InRange(Reindexed(c, k), |RemoveAt(opts, k)|)
    ensures Marked(RemoveAt(opts, k), Reindexed(c, k)) == Marked(opts, RemoveAll(c, k))
    decreases |c|
  {
    if |c| > 0 {
      var x, rest := c[0], c[1..];
      assert InRange(rest, |opts|);
      RemovalKeepsMarkedTexts(opts, rest, k);
      var opts' := RemoveAt(opts, k);
      if x == k {
        assert RemoveAll(c, k) == RemoveAll(rest, k);
      } else {
        assert RemoveAll(c, k) == [x] + RemoveAll(rest, k);
        var sx := ShiftIndex(x, k);
        assert Reindexed(c, k) == [sx] + Reindexed(rest, k);
        assert sx < |opts'| && opts'[sx] == opts[x];
        assert Marked(opts', Reindexed(c, k))
            == [opts'[sx]] + Marked(opts', Reindexed(rest, k));
        assert Marked(opts, RemoveAll(c, k)) == [opts[x]] + Marked(opts, RemoveAll(rest, k));
      }
    }
  }

  /** Deleting an option never lists an index twice. */
  lemma RemovalKeepsNoDup(c: seq<nat>, k: nat)
    requires NoDup(c)
    ensures NoDup(Reindexed(c, k))
  {
    RemoveAllNoDup(c, k);
    var f := RemoveAll(c, k);
    assert k !in f;
    var r := Shift(f, k);
    forall a, b | 0 <= a < b < |r| ensures r[a] != r[b] {
      assert f[a] in f && f[b] in f;
    }
  }

  /**
    The draft's invariant: correct indices name options and are distinct, at
    most one is marked in single-answer mode, and an MCQ keeps an option.
   */
  predicate WellFormed(d: Draft) {
    && InRange(d.correct, |d.options|)
    && NoDup(d.correct)
    && (!d.multipleCorrect ==> |d.correct| <= 1)
    && (d.qtype == MCQ ==> |d.options| >= 1)
  }

  /** The edits the form offers. */
  datatype Edit =
    | AddOpt
    | ChangeOpt(index: nat, value: string)
    | ToggleOpt(index: nat)
    | RemoveOpt(index: nat)
    | SetMultiple(multiple: bool)
    | SetType(qtype: QuestionType)

  /**
    Whether the form can fire an edit: option controls exist only for MCQ
    drafts and only for listed options, the delete button only while more than
    one option is left, and the type select and mode checkbox fire only when
    their value actually changes.
   */
  predicate Offered(d: Draft, e: Edit)
    ensures Offered(d, e) && !e.SetType? ==> d.qtype == MCQ
    ensures Offered(d, e) && (e.ChangeOpt? || e.ToggleOpt? || e.RemoveOpt?) ==> e.index < |d.options|
    ensures Offered(d, e) && e.RemoveOpt? ==> |d.options| > 1
  {
    match e
    case SetType(t) => t != d.qtype
    case AddOpt => d.qtype == MCQ
    case SetMultiple(b) => d.qtype == MCQ && b != d.multipleCorrect
    case ChangeOpt(i, _) => d.qtype == MCQ && i < |d.options|
    case ToggleOpt(i) => d.qtype == MCQ && i < |d.options|
    case RemoveOpt(i) => d.qtype == MCQ && i < |d.options| && |d.options| > 1
  }

  function Apply(d: Draft, e: Edit): Draft
    requires Offered(d, e)
  {
    match e
    case AddOpt => AddOption(d)
    case ChangeOpt(i, v) => ChangeOption(d, i, v)
    case ToggleOpt(i) => ToggleCorrect(d, i)
    case RemoveOpt(k) => RemoveOption(d, k)
    case SetMultiple(b) => SetMultipleCorrect(d, b)
    case SetType(t) => SetQuestionType(d, t)
  }

  lemma DefaultWellFormed()
    ensures WellFormed(DefaultDraft())
  {
  }

  /** Every edit the form offers keeps the draft well formed. */
  lemma EditsPreserveWellFormed(d: Draft, e: Edit)
    requires WellFormed(d) && Offered(d, e)
    ensures WellFormed(Apply(d, e))
  {
    match e
    case AddOpt =>
      var d' := AddOption(d);
      assert InRange(d'.correct, |d'.options|);
    case ChangeOpt(i, v) =>
    case ToggleOpt(i) =>
      ToggleKeepsNoDup(d.correct, d.multipleCorrect, i);
      var c' := ToggledCorrect(d.correct, d.multipleCorrect, i);
      forall j | 0 <= j < |c'| ensures c'[j] < |d.options| {
        assert c'[j] in c';
      }
    case RemoveOpt(k) =>
      RemovalKeepsMarkedTexts(d.options, d.correct, k);
      RemovalKeepsNoDup(d.correct, k);
    case SetMultiple(b) =>
    case SetType(t) =>
  }

  /** Adding the drafts `ds` one after another, as the "Add Question" button does. */
  function AddQuestions(e: ExamDraft, ds: seq<Draft>): ExamDraft
    decreases |ds|
  {
    if |ds| == 0 then e else AddQuestions(AddQuestion(e, ds[0]).0, ds[1..])
  }

  /**
    Questions are added in order and never lost: after adding `ds` the exam
    holds its old questions followed by `ds`, and its other fields are kept.
   */
  lemma {:induction false} AddQuestionsInOrder(e: ExamDraft, ds: seq<Draft>)
    ensures AddQuestions(e, ds).questions == e.questions + ds
    ensures AddQuestions(e, ds).(questions := e.questions) == e
    decreases |ds|
  {
    if |ds| > 0 {
      var e' := AddQuestion(e, ds[0]).0;
      assert e'.questions == e.questions + [ds[0]];
      AddQuestionsInOrder(e', ds[1..]);
      assert e.questions + [ds[0]] + ds[1..] == e.questions + ds;
    }
  }
}
