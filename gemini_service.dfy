/**
 * The two calls to the generative service (geminiService.ts), reduced to
 * what the client itself decides: the ordered parts of the digitization
 * request, the stripping of the data-URL header from attachments, and how
 * a reply is turned into a value or an error. The network call and
 * `JSON.parse` of the reply are outside the model: their outcomes are
 * parameters.
 */
module GeminiService {
  import opened Wrappers
  import opened Types

  /** An attachment as the digitization call receives it. */
  datatype FileData = FileData(data: string, mimeType: string)

  /** One part of the digitization request. */
  datatype Part = TextPart(text: string) | InlineDataPart(data: string, mimeType: string)

  /** The fixed instruction that opens every digitization request (geminiService.ts:71-77). */
  const DigitizerInstruction: string :=
    "\n    ACT AS: ABDY TAH Exam Digitizer.\n"
    + "    TASK: Convert the input into a structured exam.\n"
    + "    CONSTRAINTS: Use EXACT question text. Do not rewrite. \n"
    + "    INSTRUCTIONS: For each question, provide a clear instructional prefix "
    + "(e.g., \"MATCHING: Choose the correct pair\", \"MCQ: Select one\").\n"
    + "    FORMAT: Return pure JSON according to the schema.\n  "

  const ContentTextPrefix: string := "Exam Content Text: "

  const EmptyGradingMessage: string := "Empty response from grading engine."

  // -------------------------------------------------- data-URL stripping

  /** `s.split(sep)` for a one-character separator: the pieces between separators, in order. */
  function Split(s: string, sep: char): (pieces: seq<string>)
    ensures |pieces| >= 1
    ensures forall i :: 0 <= i < |pieces| ==> sep !in pieces[i]
  {
    if s == [] then [[]]
    else
      var rest := Split(s[1..], sep);
      if s[0] == sep then [[]] + rest
      else [[s[0]] + rest[0]] + rest[1..]
  }

  /** A piece free of separators, followed by nothing or by a separator, is the first piece. */
  lemma {:induction false} SplitFirst(x: string, tail: string, sep: char)
    requires sep !in x
    requires tail == [] || tail[0] == sep
    ensures Split(x + tail, sep)[0] == x
  {
    if x != [] {
      assert (x + tail)[1..] == x[1..] + tail;
      SplitFirst(x[1..], tail, sep);
      assert [x[0]] + x[1..] == x;
    } else {
      assert x + tail == tail;
    }
  }

  /** The text before the first separator is the first piece; the rest is split on its own. */
  lemma {:induction false} SplitAtFirst(x: string, rest: string, sep: char)
    requires sep !in x
    ensures Split(x + [sep] + rest, sep) == [x] + Split(rest, sep)
  {
    if x == [] {
      assert x + [sep] + rest == [sep] + rest;
      assert ([sep] + rest)[1..] == rest;
    } else {
      assert (x + [sep] + rest)[1..] == x[1..] + [sep] + rest;
      SplitAtFirst(x[1..], rest, sep);
      assert [x[0]] + x[1..] == x;
    }
  }

  /**
   * `data.split(',')[1] || data` (geminiService.ts:81): the text between
   * the first and the second comma when it is non-empty, otherwise the
   * whole string.
   */
  function StripDataUrl(data: string): (r: string)
    ensures ',' !in data ==> r == data
  {
    var pieces := Split(data, ',');
    assert ',' !in data ==> |pieces| == 1 by {
      if ',' !in data {
        NoSeparatorOnePiece(data, ',');
      }
    }
    if |pieces| > 1 && pieces[1] != "" then pieces[1] else data
  }

  lemma {:induction false} NoSeparatorOnePiece(s: string, sep: char)
    requires sep !in s
    ensures Split(s, sep) == [s]
  {
    if s != [] {
      NoSeparatorOnePiece(s[1..], sep);
      assert [s[0]] + s[1..] == s;
    }
  }

  /**
   * For a string with a comma, written `header , payload tail` where
   * neither `header` nor `payload` holds a comma and `tail` is empty or
   * starts with one: the payload when it is non-empty, else the whole string.
   * For a data URL `data:<type>;base64,<payload>` this is the payload.
   */
  lemma StripDataUrlSpec(header: string, payload: string, tail: string)
    requires ',' !in header && ',' !in payload
    requires tail == [] || tail[0] == ','
    ensures StripDataUrl(header + [','] + payload + tail)
      == if payload != "" then payload else header + [','] + payload + tail
  {
    var data := header + [','] + payload + tail;
    assert data == header + [','] + (payload + tail);
    assert data[|header|] == ',';
    SplitAtFirst(header, payload + tail, ',');
    SplitFirst(payload, tail, ',');
  }

  // ------------------------------------------------- the digitization call

  /** The inline-data part for one attachment. */
  function InlinePart(f: FileData): (p: Part)
    ensures p.InlineDataPart? && p.mimeType == f.mimeType
    ensures p.data == StripDataUrl(f.data)
    ensures ',' !in f.data ==> p.data == f.data
  {
    InlineDataPart(StripDataUrl(f.data), f.mimeType)
  }

  /**
   * The request parts after the first `|files|` attachments have been
   * pushed (geminiService.ts:71-82).
   */
  function Parts(text: string, files: seq<FileData>): (parts: seq<Part>)
    ensures |parts| == 1 + (if text != "" then 1 else 0) + |files|
    ensures parts[0] == TextPart(DigitizerInstruction)
    ensures text != "" ==> parts[1] == TextPart(ContentTextPrefix + text)
    ensures forall i :: 0 <= i < |files| ==>
      parts[1 + (if text != "" then 1 else 0) + i] == InlinePart(files[i])
  {
    if files == [] then
      [TextPart(DigitizerInstruction)] + (if text != "" then [TextPart(ContentTextPrefix + text)] else [])
    else
      Parts(text, files[..|files| - 1]) + [InlinePart(files[|files| - 1])]
  }

  /** Pushing the part of one more attachment extends the parts by that one part. */
  lemma PartsStep(text: string, files: seq<FileData>, i: nat)
    requires i < |files|
    ensures Parts(text, files[..i + 1]) == Parts(text, files[..i]) + [InlinePart(files[i])]
  {
    assert files[..i + 1][..i] == files[..i];
  }

  /** Builds the request parts the way the source does, one push at a time. */
  method BuildParts(text: string, files: seq<FileData>) returns (parts: seq<Part>)
    ensures parts == Parts(text, files)
  {
    parts := [TextPart(DigitizerInstruction)];
    if text != "" {
      parts := parts + [TextPart(ContentTextPrefix + text)];
    }
    var i := 0;
    while i < |files|
      invariant 0 <= i <= |files|
      invariant parts == Parts(text, files[..i])
    {
      PartsStep(text, files, i);
      parts := parts + [InlinePart(files[i])];
      i := i + 1;
    }
    assert files[..|files|] == files;
  }

  /** Why a call to the service produced no value. */
  datatype ServiceError =
    | RequestFailed(message: string)  // the service call itself threw
    | EmptyResponse                   // the reply had no text
    | MalformedResponse               // the reply text was not valid JSON

  /** The message a grading error carries. */
  function ErrorMessage(e: ServiceError): string
  {
    match e
    case RequestFailed(m) => m
    case EmptyResponse => EmptyGradingMessage
    case MalformedResponse => "Malformed JSON in response."
  }

  /**
   * What `JSON.parse` makes of a reply text: it throws, it returns `null`,
   * or it returns a value of the expected shape.
   */
  datatype Parsed<T> = NotJson | JsonNull | JsonValue(value: T)

  /** The value a successful parse resolves to: `None` stands for `null`. */
  function Resolved<T>(p: Parsed<T>): (r: Option<T>)
    requires !p.NotJson?
    ensures r.None? <==> p.JsonNull?
    ensures r.Some? ==> p == JsonValue(r.value)
  {
    if p.JsonNull? then None else Some(p.value)
  }

  /**
   * The value `parseExamContent` resolves to (geminiService.ts:84-94):
   * `reply` is the outcome of the service call, `parsed` what `JSON.parse`
   * makes of a non-empty reply text. An empty text does not parse; a text
   * that parses to `null` resolves to `null`.
   */
  function ExamReply(reply: Result<string, string>, parsed: Parsed<Exam>): (r: Result<Option<Exam>, ServiceError>)
    ensures r.Success? <==> reply.Success? && reply.value != "" && !parsed.NotJson?
    ensures r.Success? ==> r.value == Resolved(parsed)
    ensures reply.Failure? ==> r == Failure(RequestFailed(reply.error))
  {
    match reply
    case Failure(m) => Failure(RequestFailed(m))
    case Success(text) =>
      if text == "" || parsed.NotJson? then Failure(MalformedResponse)
      else Success(Resolved(parsed))
  }

  /** `parseExamContent`: the request it sends and the value it resolves to. */
  method ParseExamContent(text: string, files: seq<FileData>, reply: Result<string, string>, parsed: Parsed<Exam>)
    returns (request: seq<Part>, outcome: Result<Option<Exam>, ServiceError>)
    ensures request == Parts(text, files)
    ensures outcome == ExamReply(reply, parsed)
  {
    request := BuildParts(text, files);
    outcome := ExamReply(reply, parsed);
  }

  /** What the grading call sends: every question with its key, and the answers. */
  datatype GradingRequest = GradingRequest(questions: seq<Question>, answers: seq<UserAnswer>)

  /**
   * The value `gradeExam` resolves to (geminiService.ts:115-127): an
   * empty reply text is refused before any parsing; a non-empty text that
   * parses to `null` resolves to `null`.
   */
  function GradingReply(reply: Result<string, string>, parsed: Parsed<ExamResult>): (r: Result<Option<ExamResult>, ServiceError>)
    ensures reply.Success? && reply.value == "" ==> r == Failure(EmptyResponse)
    ensures r.Success? <==> reply.Success? && reply.value != "" && !parsed.NotJson?
    ensures r.Success? ==> r.value == Resolved(parsed)
    ensures reply.Failure? ==> r == Failure(RequestFailed(reply.error))
  {
    match reply
    case Failure(m) => Failure(RequestFailed(m))
    case Success(text) =>
      if text == "" then Failure(EmptyResponse)
      else if parsed.NotJson? then Failure(MalformedResponse)
      else Success(Resolved(parsed))
  }

  /** `gradeExam`: the request it sends and the value it resolves to. */
  method GradeExam(questions: seq<Question>, answers: seq<UserAnswer>, reply: Result<string, string>, parsed: Parsed<ExamResult>)
    returns (request: GradingRequest, outcome: Result<Option<ExamResult>, ServiceError>)
    ensures request == GradingRequest(questions, answers)
    ensures outcome == GradingReply(reply, parsed)
    ensures reply == Success("") ==> outcome.Failure? && ErrorMessage(outcome.error) == EmptyGradingMessage
  {
    request := GradingRequest(questions, answers);
    outcome := GradingReply(reply, parsed);
  }
}
