/**
 * The records and closed variants that every other module works on
 * (types.ts). Numbers that the source stores as JavaScript `number`
 * (`points`, `score`, `totalPoints`, `earnedPoints`) are integers here.
 */
module Types {
  import opened Wrappers

  /** The five kinds of question; the wire name of each is its own name. */
  datatype QuestionType = MCQ | TRUE_FALSE | FILL_IN_BLANK | WORKOUT | MATCHING

  /** The string value the enum member carries on the wire. */
  function QuestionTypeName(t: QuestionType): (name: string)
    ensures |name| > 0
  {
    match t
    case MCQ => "MCQ"
    case TRUE_FALSE => "TRUE_FALSE"
    case FILL_IN_BLANK => "FILL_IN_BLANK"
    case WORKOUT => "WORKOUT"
    case MATCHING => "MATCHING"
  }

  /** The enum member whose wire name is `name`, if any. */
  function ParseQuestionType(name: string): (r: Option<QuestionType>)
    ensures r.Some? ==> QuestionTypeName(r.value) == name
  {
    if name == "MCQ" then Some(MCQ)
    else if name == "TRUE_FALSE" then Some(TRUE_FALSE)
    else if name == "FILL_IN_BLANK" then Some(FILL_IN_BLANK)
    else if name == "WORKOUT" then Some(WORKOUT)
    else if name == "MATCHING" then Some(MATCHING)
    else None
  }

  /** Every question type has its own wire name, and reading that name back gives the same type. */
  lemma QuestionTypeNameRoundTrip(t: QuestionType)
    ensures ParseQuestionType(QuestionTypeName(t)) == Some(t)
  {
    match t
    case MCQ =>
    case TRUE_FALSE =>
    case FILL_IN_BLANK =>
    case WORKOUT =>
    case MATCHING =>
  }

  /** The variant is closed: exactly five distinct wire names are accepted. */
  lemma QuestionTypeIsClosed(name: string)
    ensures ParseQuestionType(name).Some? <==>
      name in {"MCQ", "TRUE_FALSE", "FILL_IN_BLANK", "WORKOUT", "MATCHING"}
  {
  }

  /** A left-column prompt and its ground-truth right-column match. */
  datatype MatchingPair = MatchingPair(key: string, value: string)

  /** One question of an exam; the last three optional fields of the source are `Option`s. */
  datatype Question = Question(
    id: string,
    text: string,
    qtype: QuestionType,
    instructions: Option<string>,
    options: Option<seq<string>>,
    matchingPairs: Option<seq<MatchingPair>>,
    correctAnswer: string,
    points: int)

  datatype Exam = Exam(title: string, questions: seq<Question>)

  /** The three application steps of the string union `'INPUT' | 'EXAM' | 'RESULT'`. */
  datatype AppStep = INPUT | EXAM | RESULT

  function AppStepName(s: AppStep): (name: string)
    ensures |name| > 0
  {
    match s
    case INPUT => "INPUT"
    case EXAM => "EXAM"
    case RESULT => "RESULT"
  }

  function ParseAppStep(name: string): (r: Option<AppStep>)
    ensures r.Some? ==> AppStepName(r.value) == name
    ensures r.Some? <==> name in {"INPUT", "EXAM", "RESULT"}
  {
    if name == "INPUT" then Some(INPUT)
    else if name == "EXAM" then Some(EXAM)
    else if name == "RESULT" then Some(RESULT)
    else None
  }

  /** Each step is read back from its own name. */
  lemma AppStepNameRoundTrip(s: AppStep)
    ensures ParseAppStep(AppStepName(s)) == Some(s)
  {
    match s
    case INPUT =>
    case EXAM =>
    case RESULT =>
  }

  /** One recorded answer; for a MATCHING question `answer` is an encoded JSON object. */
  datatype UserAnswer = UserAnswer(questionId: string, answer: string)

  /** One line of a grading report. */
  datatype BreakdownEntry = BreakdownEntry(
    questionId: string,
    isCorrect: bool,
    earnedPoints: int,
    correctAnswer: string,
    userAnswer: string)

  datatype ExamResult = ExamResult(score: int, totalPoints: int, breakdown: seq<BreakdownEntry>)
}
