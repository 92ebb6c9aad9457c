/**
 * The application controller (App.tsx): the step machine
 * INPUT -> EXAM -> RESULT -> INPUT driven by the outcomes of the two
 * service calls. `AppState` and its transition functions are the
 * specification; class `App` updates its fields the way the handlers do
 * and is proved to follow them.
 */
module App {
  import opened Wrappers
  import opened Types
  import GeminiService
  import ExamPaper

  const DigitizingText: string := "DIGITIZING EXAM..."
  const GradingText: string := "GRADING SUBMISSION..."

  /**
   * The five state fields of the controller. `None` stands for `null`,
   * which is also what a service call resolving to `null` stores.
   */
  datatype AppState = AppState(
    step: AppStep,
    exam: Option<Exam>,
    result: Option<ExamResult>,
    isLoading: bool,
    loadingText: string)

  /** The state on first render (App.tsx:11-15). */
  const Initial: AppState := AppState(INPUT, None, None, false, "")

  /**
   * What the code keeps between handlers: the input step holds neither an
   * exam nor a result, the results step was reached with an exam, and
   * nothing is loading.
   */
  predicate Settled(s: AppState)
  {
    && (s.step == INPUT ==> s.exam.None? && s.result.None?)
    && (s.step == RESULT ==> s.exam.Some?)
    && !s.isLoading
  }

  /**
   * What rendering needs: in addition, the exam step has an exam and the
   * results step a result.
   */
  predicate Invariant(s: AppState)
  {
    && Settled(s)
    && (s.step == EXAM ==> s.exam.Some?)
    && (s.step == RESULT ==> s.result.Some?)
  }

  /**
   * `handleStartExam` once the digitization call has settled (App.tsx:17-29):
   * on success whatever the call resolved to is stored as the exam and the
   * exam step shown; on failure the step, the exam and the result stay.
   */
  function StartExamStep(s: AppState, outcome: Result<Option<Exam>, GeminiService.ServiceError>): (t: AppState)
    ensures !t.isLoading && t.loadingText == DigitizingText && t.result == s.result
    ensures outcome.Success? ==> t.step == EXAM && t.exam == outcome.value
    ensures outcome.Failure? ==> t.step == s.step && t.exam == s.exam
  {
    match outcome
    case Success(data) => s.(exam := data, step := EXAM, isLoading := false, loadingText := DigitizingText)
    case Failure(_) => s.(isLoading := false, loadingText := DigitizingText)
  }

  /**
   * `calculateScore` once the grading call has settled (App.tsx:31-46):
   * nothing happens without an exam; on success whatever the call resolved
   * to is stored as the result and the results step shown; on failure
   * step, exam and result stay.
   */
  function SubmitStep(s: AppState, outcome: Result<Option<ExamResult>, GeminiService.ServiceError>): (t: AppState)
    ensures s.exam.None? ==> t == s
    ensures t.exam == s.exam
    ensures s.exam.Some? ==> !t.isLoading && t.loadingText == GradingText
    ensures s.exam.Some? && outcome.Success? ==> t.step == RESULT && t.result == outcome.value
    ensures outcome.Failure? ==> t.step == s.step && t.result == s.result
  {
    if s.exam.None? then s
    else match outcome
      case Success(r) => s.(result := r, step := RESULT, isLoading := false, loadingText := GradingText)
      case Failure(_) => s.(isLoading := false, loadingText := GradingText)
  }

  /** `resetApp` (App.tsx:48-52): back to the input step with no exam and no result. */
  function ResetStep(s: AppState): (t: AppState)
    ensures t.step == INPUT && t.exam.None? && t.result.None?
    ensures t.isLoading == s.isLoading && t.loadingText == s.loadingText
  {
    s.(step := INPUT, exam := None, result := None)
  }

  /** What the user can do, with the settled outcome of any service call it makes. */
  datatype Event =
    | StartExam(exam: Result<Option<Exam>, GeminiService.ServiceError>)
    | Submit(grading: Result<Option<ExamResult>, GeminiService.ServiceError>)
    | Reset

  /** One handler, as written. */
  function Next(s: AppState, e: Event): AppState
  {
    match e
    case StartExam(o) => StartExamStep(s, o)
    case Submit(o) => SubmitStep(s, o)
    case Reset => ResetStep(s)
  }

  function Run(s: AppState, events: seq<Event>): AppState
    decreases |events|
  {
    if events == [] then s else Run(Next(s, events[0]), events[1..])
  }

  /** The handlers as written keep the weaker invariant over any sequence of events. */
  lemma {:induction false} RunKeepsSettled(s: AppState, events: seq<Event>)
    requires Settled(s)
    ensures Settled(Run(s, events))
    decreases |events|
  {
    if events != [] {
      RunKeepsSettled(Next(s, events[0]), events[1..]);
    }
  }

  /** The pane `main` renders (App.tsx:69-85); the loading overlay is not modelled. */
  datatype Pane = InputPane | ExamPane(exam: Exam) | ResultsPane(result: ExamResult) | NoPane

  /** Each pane renders only in its own step and only with that step's data. */
  function PaneOf(s: AppState): (p: Pane)
    ensures p == InputPane <==> s.step == INPUT
    ensures p.ExamPane? <==> s.step == EXAM && s.exam.Some?
    ensures p.ExamPane? ==> s.exam == Some(p.exam)
    ensures p.ResultsPane? <==> s.step == RESULT && s.result.Some?
    ensures p.ResultsPane? ==> s.result == Some(p.result)
  {
    if s.step == INPUT then InputPane
    else if s.step == EXAM && s.exam.Some? then ExamPane(s.exam.value)
    else if s.step == RESULT && s.result.Some? then ResultsPane(s.result.value)
    else NoPane
  }

  /**
   * As written, a digitization reply whose text is `null` is stored as
   * the exam: the exam step is shown with no exam and nothing renders.
   */
  lemma NullExamReplyShowsNothing()
    ensures var t := Run(Initial, [StartExam(GeminiService.ExamReply(Success("null"), GeminiService.JsonNull))]);
      t.step == EXAM && t.exam.None? && PaneOf(t) == NoPane && !Invariant(t)
  {
  }

  /**
   * As written, a grading reply whose text is `null` passes the empty-text
   * test and is stored as the result: the results step is shown with no
   * result and nothing renders.
   */
  lemma NullGradingReplyShowsNothing(e: Exam)
    ensures var t := Run(Initial, [StartExam(Success(Some(e))),
                                   Submit(GeminiService.GradingReply(Success("null"), GeminiService.JsonNull))]);
      t.step == RESULT && t.result.None? && PaneOf(t) == NoPane && !Invariant(t)
  {
    var events := [StartExam(Success(Some(e))),
                   Submit(GeminiService.GradingReply(Success("null"), GeminiService.JsonNull))];
    var s1 := Next(Initial, events[0]);
    assert s1.exam == Some(e);
    assert events[1..] == [events[1]] && events[1].grading == Success(None);
    assert Run(Initial, events) == Run(s1, [events[1]]) == Next(s1, events[1]);
  }

  /**
   * The correction: a call that resolves to `null` is treated as a
   * malformed reply, as a reply that does not parse is.
   */
  function RefuseNull(e: Event): (r: Event)
    ensures r.StartExam? ==> r.exam != Success(None)
    ensures r.Submit? ==> r.grading != Success(None)
    ensures e.Reset? <==> r.Reset?
    ensures e.StartExam? <==> r.StartExam?
    ensures e.StartExam? && e.exam != Success(None) ==> r == e
    ensures e.Submit? && e.grading != Success(None) ==> r == e
    ensures e == StartExam(Success(None)) ==> r == StartExam(Failure(GeminiService.MalformedResponse))
    ensures e == Submit(Success(None)) ==> r == Submit(Failure(GeminiService.MalformedResponse))
  {
    match e
    case StartExam(Success(None)) => StartExam(Failure(GeminiService.MalformedResponse))
    case Submit(Success(None)) => Submit(Failure(GeminiService.MalformedResponse))
    case _ => e
  }

  /** One handler, corrected to refuse `null` replies. */
  function GuardedNext(s: AppState, e: Event): AppState
  {
    Next(s, RefuseNull(e))
  }

  function GuardedRun(s: AppState, events: seq<Event>): AppState
    decreases |events|
  {
    if events == [] then s else GuardedRun(GuardedNext(s, events[0]), events[1..])
  }

  /**
   * Under the correction a call resolving to `null` is refused: the step,
   * the exam and the result stay as they were.
   */
  lemma GuardedNullReplyKeepsState(s: AppState)
    ensures var t := GuardedNext(s, StartExam(Success(None)));
      t.step == s.step && t.exam == s.exam && t.result == s.result
    ensures var t := GuardedNext(s, Submit(Success(None)));
      t.step == s.step && t.exam == s.exam && t.result == s.result
  {
  }

  /** Every corrected transition keeps the invariant. */
  lemma GuardedNextKeepsInvariant(s: AppState, e: Event)
    requires Invariant(s)
    ensures Invariant(GuardedNext(s, e))
  {
  }

  /** The invariant holds after any sequence of corrected transitions. */
  lemma {:induction false} GuardedRunKeepsInvariant(s: AppState, events: seq<Event>)
    requires Invariant(s)
    ensures Invariant(GuardedRun(s, events))
    decreases |events|
  {
    if events != [] {
      GuardedNextKeepsInvariant(s, events[0]);
      GuardedRunKeepsInvariant(GuardedNext(s, events[0]), events[1..]);
    }
  }

  /**
   * With `null` replies refused, whatever the user does and however the
   * calls settle, the exam step has an exam and the results step an exam
   * and a result.
   */
  lemma ReachableStatesKeepInvariant(events: seq<Event>)
    ensures Invariant(GuardedRun(Initial, events))
  {
    GuardedRunKeepsInvariant(Initial, events);
  }

  /**
   * An empty grading reply in the exam step is a grading failure: the
   * exam step, its exam and the result stay.
   */
  lemma EmptyGradingReplyKeepsExam(s: AppState, parsed: GeminiService.Parsed<ExamResult>)
    requires s.step == EXAM
    ensures var t := Next(s, Submit(GeminiService.GradingReply(Success(""), parsed)));
      t.step == EXAM && t.exam == s.exam && t.result == s.result
  {
  }

  /**
   * Under the invariant exactly the pane of the current step is rendered,
   * with the data it needs; the blank screen cannot occur.
   */
  lemma PaneFollowsStep(s: AppState)
    requires Invariant(s)
    ensures PaneOf(s) != NoPane
    ensures s.step == INPUT ==> PaneOf(s) == InputPane
    ensures s.step == EXAM ==> PaneOf(s) == ExamPane(s.exam.value)
    ensures s.step == RESULT ==> PaneOf(s) == ResultsPane(s.result.value)
  {
  }

  /** The controller's state fields, updated in place by its handlers. */
  class App {
    var step: AppStep
    var exam: Option<Exam>
    var isLoading: bool
    var loadingText: string
    var result: Option<ExamResult>

    function State(): AppState
      reads this
    {
      AppState(step, exam, result, isLoading, loadingText)
    }

    ghost predicate Valid()
      reads this
    {
      Settled(State())
    }

    constructor ()
      ensures Valid() && State() == Initial
    {
      step := INPUT;
      exam := None;
      isLoading := false;
      loadingText := "";
      result := None;
    }

    /**
     * `handleStartExam(text, files)`: `reply` is how the service call
     * settled and `parsed` what `JSON.parse` makes of its text.
     */
    method HandleStartExam(text: string, files: seq<GeminiService.FileData>,
                           reply: Result<string, string>, parsed: GeminiService.Parsed<Exam>)
      requires Valid()
      modifies this
      ensures Valid()
      ensures State() == StartExamStep(old(State()), GeminiService.ExamReply(reply, parsed))
    {
      isLoading := true;
      loadingText := DigitizingText;
      var request, outcome := GeminiService.ParseExamContent(text, files, reply, parsed);
      match outcome {
        case Success(data) =>
          exam := data;
          step := EXAM;
        case Failure(_) =>
      }
      isLoading := false;
    }

    /** `calculateScore(userAnswers)` with the settled grading call. */
    method CalculateScore(userAnswers: seq<UserAnswer>, reply: Result<string, string>, parsed: GeminiService.Parsed<ExamResult>)
      requires Valid()
      modifies this
      ensures Valid()
      ensures State() == SubmitStep(old(State()), GeminiService.GradingReply(reply, parsed))
    {
      if exam.None? {
        return;
      }
      isLoading := true;
      loadingText := GradingText;
      var request, outcome := GeminiService.GradeExam(exam.value.questions, userAnswers, reply, parsed);
      match outcome {
        case Success(gradingResult) =>
          result := gradingResult;
          step := RESULT;
        case Failure(_) =>
      }
      isLoading := false;
    }

    /** `resetApp`, from the logo or the restart button. */
    method ResetApp()
      requires Valid()
      modifies this
      ensures Valid()
      ensures State() == ResetStep(old(State()))
    {
      step := INPUT;
      exam := None;
      result := None;
    }

  }

  /**
   * A confirmed submission whose grading reply comes back empty leaves the
   * application in the exam step, and the paper keeps every answer, so
   * each one can still be read back.
   */
  method EmptyGradingKeepsAnswers(app: App, paper: ExamPaper.Paper, parsed: GeminiService.Parsed<ExamResult>)
    requires app.Valid() && app.step == EXAM && paper.Valid()
    modifies app
    ensures app.step == EXAM && app.exam == old(app.exam)
    ensures paper.answers == old(paper.answers)
  {
    var submitted := paper.HandleSubmit(true);
    app.CalculateScore(submitted.value, Success(""), parsed);
  }
}
