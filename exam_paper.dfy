/**
 * The answering session of one exam (components/ExamPaper.tsx): the list
 * of recorded answers, the question in focus, recording a plain or a
 * matching answer, the progress counts and the guarded submission.
 */
module ExamPaper {
  import opened Wrappers
  import opened Types
  import MatchingCodec

  /** Some entry of `answers` belongs to question `id`. */
  predicate Recorded(answers: seq<UserAnswer>, id: string)
  {
    exists i :: 0 <= i < |answers| && answers[i].questionId == id
  }

  /** At most one entry per question. */
  predicate UniqueIds(answers: seq<UserAnswer>)
  {
    forall i, j :: 0 <= i < j < |answers| ==> answers[i].questionId != answers[j].questionId
  }

  /** The first entry for question `id` (`answers.find`). */
  function Find(answers: seq<UserAnswer>, id: string): (r: Option<UserAnswer>)
    ensures r.None? <==> !Recorded(answers, id)
    ensures r.Some? ==> r.value.questionId == id
    ensures r.Some? ==> exists i ::
      0 <= i < |answers| && answers[i] == r.value && forall j :: 0 <= j < i ==> answers[j].questionId != id
  {
    if answers == [] then None
    else if answers[0].questionId == id then
      assert answers[0] == answers[0];
      Some(answers[0])
    else
      var r := Find(answers[1..], id);
      assert r.Some? ==> exists i ::
        0 <= i < |answers| && answers[i] == r.value && forall j :: 0 <= j < i ==> answers[j].questionId != id
      by {
        if r.Some? {
          var tail := answers[1..];
          var i :| 0 <= i < |tail| && tail[i] == r.value
            && forall j :: 0 <= j < i ==> tail[j].questionId != id;
          assert answers[i + 1] == r.value;
          forall j | 0 <= j < i + 1 ensures answers[j].questionId != id {
            if j > 0 {
              assert answers[j] == tail[j - 1];
            }
          }
        }
      }
      assert Recorded(answers, id) ==> Recorded(answers[1..], id) by {
        if Recorded(answers, id) {
          var i :| 0 <= i < |answers| && answers[i].questionId == id;
          assert answers[1..][i - 1].questionId == id;
        }
      }
      assert Recorded(answers[1..], id) ==> Recorded(answers, id) by {
        if Recorded(answers[1..], id) {
          var i :| 0 <= i < |answers[1..]| && answers[1..][i].questionId == id;
          assert answers[i + 1].questionId == id;
        }
      }
      r
  }

  /**
   * The recorded answer of question `id` (ExamPaper.tsx:23); the empty
   * string when none has been recorded.
   */
  function GetAnswer(answers: seq<UserAnswer>, id: string): (r: string)
    ensures !Recorded(answers, id) ==> r == ""
    ensures Recorded(answers, id) ==> UserAnswer(id, r) in answers
  {
    assert Find(answers, id).Some? ==> Find(answers, id).value in answers by {
      if Find(answers, id).Some? {
        var i :| 0 <= i < |answers| && answers[i] == Find(answers, id).value
          && forall j :: 0 <= j < i ==> answers[j].questionId != id;
      }
    }
    match Find(answers, id)
    case Some(a) => a.answer
    case None => ""
  }

  /**
   * The list after recording `answer` for question `id` (ExamPaper.tsx:15-20):
   * entries of that question take the new answer in place; a question
   * with no entry gets one at the end.
   */
  function Upsert(answers: seq<UserAnswer>, id: string, answer: string): (r: seq<UserAnswer>)
    ensures !Recorded(answers, id) ==> r == answers + [UserAnswer(id, answer)]
    ensures Recorded(answers, id) ==> |r| == |answers|
    ensures forall i :: 0 <= i < |answers| ==> r[i].questionId == answers[i].questionId
    ensures forall i :: 0 <= i < |answers| && answers[i].questionId != id ==> r[i] == answers[i]
    ensures forall i :: 0 <= i < |r| && r[i].questionId == id ==> r[i].answer == answer
  {
    if Find(answers, id).Some? then
      seq(|answers|, i requires 0 <= i < |answers| =>
        if answers[i].questionId == id then answers[i].(answer := answer) else answers[i])
    else answers + [UserAnswer(id, answer)]
  }

  /** Recording an answer keeps one entry per question, and the question then has an entry. */
  lemma UpsertKeepsIdsUnique(answers: seq<UserAnswer>, id: string, answer: string)
    requires UniqueIds(answers)
    ensures UniqueIds(Upsert(answers, id, answer))
    ensures Recorded(Upsert(answers, id, answer), id)
  {
    var r := Upsert(answers, id, answer);
    forall i, j | 0 <= i < j < |r| ensures r[i].questionId != r[j].questionId {
      if j == |answers| {
        assert r[j].questionId == id && !Recorded(answers, id);
        assert answers[i].questionId != id;
      }
    }
    if Recorded(answers, id) {
      var i :| 0 <= i < |answers| && answers[i].questionId == id;
      assert r[i].questionId == id;
    } else {
      assert r[|answers|].questionId == id;
    }
  }

  /** The entry `Find` returns is the only one of its question when ids are unique. */
  lemma FindUnique(answers: seq<UserAnswer>, i: nat)
    requires UniqueIds(answers) && i < |answers|
    ensures Find(answers, answers[i].questionId) == Some(answers[i])
  {
    var f := Find(answers, answers[i].questionId);
    var j :| 0 <= j < |answers| && answers[j] == f.value
      && forall k :: 0 <= k < j ==> answers[k].questionId != answers[i].questionId;
    assert answers[j].questionId == answers[i].questionId;
  }

  /**
   * After recording, the question reads back the latest answer and every
   * other question reads back what it did before.
   */
  lemma {:induction false} GetAnswerAfterUpsert(answers: seq<UserAnswer>, id: string, answer: string, other: string)
    ensures GetAnswer(Upsert(answers, id, answer), id) == answer
    ensures other != id ==> GetAnswer(Upsert(answers, id, answer), other) == GetAnswer(answers, other)
  {
    var r := Upsert(answers, id, answer);
    var f := Find(r, id);
    assert f.Some? by { if !Recorded(answers, id) { assert r[|answers|].questionId == id; } else {
      var i :| 0 <= i < |answers| && answers[i].questionId == id;
      assert r[i].questionId == id;
    } }
    var k :| 0 <= k < |r| && r[k] == f.value && forall j :: 0 <= j < k ==> r[j].questionId != id;
    if other != id {
      FindAfterUpsert(answers, id, answer, other);
    }
  }

  /** Recording for `id` does not change which entry, or which answer, another question finds. */
  lemma {:induction false} FindAfterUpsert(answers: seq<UserAnswer>, id: string, answer: string, other: string)
    requires other != id
    ensures Find(Upsert(answers, id, answer), other) == Find(answers, other)
  {
    var r := Upsert(answers, id, answer);
    if Recorded(answers, id) {
      FindSameForOther(answers, r, other);
    } else {
      FindAppend(answers, UserAnswer(id, answer), other);
    }
  }

  lemma {:induction false} FindSameForOther(a: seq<UserAnswer>, b: seq<UserAnswer>, other: string)
    requires |a| == |b|
    requires forall i :: 0 <= i < |a| ==> a[i].questionId == b[i].questionId
    requires forall i :: 0 <= i < |a| && a[i].questionId == other ==> a[i] == b[i]
    ensures Find(a, other) == Find(b, other)
  {
    if a != [] && a[0].questionId != other {
      FindSameForOther(a[1..], b[1..], other);
    }
  }

  lemma {:induction false} FindAppend(a: seq<UserAnswer>, x: UserAnswer, other: string)
    requires x.questionId != other
    ensures Find(a + [x], other) == Find(a, other)
  {
    if a != [] && a[0].questionId != other {
      assert (a + [x])[1..] == a[1..] + [x];
      FindAppend(a[1..], x, other);
    } else if a == [] {
      assert [x][1..] == [];
    }
  }

  /**
   * The sidebar's "answered" test (ExamPaper.tsx:53): some entry of the
   * question holds a non-empty answer.
   */
  function IsAnswered(answers: seq<UserAnswer>, id: string): (b: bool)
    ensures b ==> Recorded(answers, id)
  {
    exists i :: 0 <= i < |answers| && answers[i].questionId == id && answers[i].answer != ""
  }

  /** With one entry per question, "answered" means the recorded answer is non-empty. */
  lemma IsAnsweredMeansNonEmpty(answers: seq<UserAnswer>, id: string)
    requires UniqueIds(answers)
    ensures IsAnswered(answers, id) <==> GetAnswer(answers, id) != ""
  {
    if IsAnswered(answers, id) {
      var i :| 0 <= i < |answers| && answers[i].questionId == id && answers[i].answer != "";
      FindUnique(answers, i);
    }
    if GetAnswer(answers, id) != "" {
      var f := Find(answers, id);
      var i :| 0 <= i < |answers| && answers[i] == f.value
        && forall j :: 0 <= j < i ==> answers[j].questionId != id;
    }
  }

  /** After recording `answer` for `id`, that question is answered exactly when `answer` is non-empty. */
  lemma IsAnsweredAfterUpsert(answers: seq<UserAnswer>, id: string, answer: string, x: string)
    ensures IsAnswered(Upsert(answers, id, answer), x)
      <==> if x == id then answer != "" else IsAnswered(answers, x)
  {
    var r := Upsert(answers, id, answer);
    if x == id && answer != "" {
      if Recorded(answers, id) {
        var i :| 0 <= i < |answers| && answers[i].questionId == id;
        assert r[i].questionId == id;
      } else {
        assert r[|answers|].questionId == id;
      }
    }
    if x != id && IsAnswered(answers, x) {
      var i :| 0 <= i < |answers| && answers[i].questionId == x && answers[i].answer != "";
      assert r[i] == answers[i];
    }
    if x != id && IsAnswered(r, x) {
      var i :| 0 <= i < |r| && r[i].questionId == x && r[i].answer != "";
      assert i < |answers| && answers[i] == r[i];
    }
  }

  /** Some question of the exam has id `id`. */
  predicate HasQuestion(questions: seq<Question>, id: string)
  {
    exists i :: 0 <= i < |questions| && questions[i].id == id
  }

  lemma HasQuestionCons(questions: seq<Question>, id: string)
    requires questions != []
    ensures HasQuestion(questions, id) <==> questions[0].id == id || HasQuestion(questions[1..], id)
  {
    if HasQuestion(questions, id) && questions[0].id != id {
      var i :| 0 <= i < |questions| && questions[i].id == id;
      assert questions[1..][i - 1].id == id;
    }
    if HasQuestion(questions[1..], id) {
      var i :| 0 <= i < |questions[1..]| && questions[1..][i].id == id;
      assert questions[i + 1].id == id;
    }
  }

  /** With distinct ids, the first question's id does not occur again. */
  lemma HeadIdNotInTail(questions: seq<Question>)
    requires questions != [] && DistinctIds(questions)
    ensures !HasQuestion(questions[1..], questions[0].id)
  {
    forall i | 0 <= i < |questions[1..]| ensures questions[1..][i].id != questions[0].id {
      assert questions[1..][i] == questions[i + 1];
    }
  }

  predicate DistinctIds(questions: seq<Question>)
  {
    forall i, j :: 0 <= i < j < |questions| ==> questions[i].id != questions[j].id
  }

  /**
   * What the progress bar shows as "Completed" (ExamPaper.tsx:190): the
   * number of entries, whatever their answers.
   */
  function CompletedCount(answers: seq<UserAnswer>): nat
  {
    |answers|
  }

  /** How many questions the sidebar marks as answered (ExamPaper.tsx:52-53). */
  function AnsweredCount(questions: seq<Question>, answers: seq<UserAnswer>): (n: nat)
    ensures n <= |questions|
  {
    if questions == [] then 0
    else (if IsAnswered(answers, questions[0].id) then 1 else 0) + AnsweredCount(questions[1..], answers)
  }

  /**
   * Recording changes the answered count only through the question
   * recorded: it loses its mark when `answer` is empty, gains it otherwise.
   */
  lemma {:induction false} AnsweredCountAfterUpsert(questions: seq<Question>, answers: seq<UserAnswer>, id: string, answer: string)
    requires DistinctIds(questions)
    ensures AnsweredCount(questions, Upsert(answers, id, answer))
      == AnsweredCount(questions, answers)
         - (if HasQuestion(questions, id) && IsAnswered(answers, id) then 1 else 0)
         + (if HasQuestion(questions, id) && answer != "" then 1 else 0)
  {
    if questions != [] {
      var q := questions[0];
      var tail := questions[1..];
      assert DistinctIds(tail) by {
        forall i, j | 0 <= i < j < |tail| ensures tail[i].id != tail[j].id {
          assert tail[i] == questions[i + 1] && tail[j] == questions[j + 1];
        }
      }
      IsAnsweredAfterUpsert(answers, id, answer, q.id);
      AnsweredCountAfterUpsert(tail, answers, id, answer);
      HasQuestionCons(questions, id);
      HeadIdNotInTail(questions);
    }
  }

  /** One more entry can mark at most the one question it belongs to. */
  lemma {:induction false} AnsweredCountAppend(questions: seq<Question>, answers: seq<UserAnswer>, a: UserAnswer)
    requires DistinctIds(questions)
    ensures AnsweredCount(questions, answers + [a])
      <= AnsweredCount(questions, answers) + (if HasQuestion(questions, a.questionId) then 1 else 0)
  {
    if questions != [] {
      var q := questions[0];
      var tail := questions[1..];
      assert DistinctIds(tail) by {
        forall i, j | 0 <= i < j < |tail| ensures tail[i].id != tail[j].id {
          assert tail[i] == questions[i + 1] && tail[j] == questions[j + 1];
        }
      }
      AnsweredCountAppend(tail, answers, a);
      HasQuestionCons(questions, a.questionId);
      if IsAnswered(answers + [a], q.id) && !IsAnswered(answers, q.id) {
        var i :| 0 <= i < |answers + [a]| && (answers + [a])[i].questionId == q.id && (answers + [a])[i].answer != "";
        if i < |answers| {
          assert answers[i] == (answers + [a])[i];
        }
      }
      HeadIdNotInTail(questions);
    }
  }

  /**
   * The "Completed" figure is never below the number of questions the
   * sidebar marks as answered, provided question ids are distinct.
   */
  lemma {:induction false} CompletedCoversAnswered(questions: seq<Question>, answers: seq<UserAnswer>)
    requires DistinctIds(questions)
    ensures AnsweredCount(questions, answers) <= CompletedCount(answers)
  {
    if answers == [] {
      AnsweredCountOfNothing(questions);
    } else {
      var n := |answers|;
      CompletedCoversAnswered(questions, answers[..n - 1]);
      assert answers[..n - 1] + [answers[n - 1]] == answers;
      AnsweredCountAppend(questions, answers[..n - 1], answers[n - 1]);
    }
  }

  lemma {:induction false} AnsweredCountOfNothing(questions: seq<Question>)
    ensures AnsweredCount(questions, []) == 0
  {
    if questions != [] {
      AnsweredCountOfNothing(questions[1..]);
    }
  }

  /**
   * Clearing a recorded answer to the empty string leaves the "Completed"
   * figure where it was: a one-question exam whose only answer was cleared
   * shows "1 / 1 Completed" although the sidebar marks nothing answered.
   */
  lemma ClearedAnswerStillCompleted()
    ensures var q := Question("q1", "The capital of France is ___", FILL_IN_BLANK, None, None, None, "Paris", 10);
      var answers := Upsert(Upsert([], "q1", "Paris"), "q1", "");
      CompletedCount(answers) == 1 && AnsweredCount([q], answers) == 0
  {
    var answers := Upsert(Upsert([], "q1", "Paris"), "q1", "");
    assert answers == [UserAnswer("q1", "")];
  }

  /** The session state of one exam paper. */
  class Paper {
    const exam: Exam
    var answers: seq<UserAnswer>
    var activeQuestionIndex: int

    ghost predicate Valid()
      reads this
    {
      UniqueIds(answers)
    }

    constructor (exam: Exam)
      ensures Valid()
      ensures this.exam == exam && answers == [] && activeQuestionIndex == 0
    {
      this.exam := exam;
      answers := [];
      activeQuestionIndex := 0;
    }

    /** Records a plain answer (ExamPaper.tsx:15-21). */
    method HandleAnswer(questionId: string, answer: string)
      requires Valid()
      modifies this
      ensures Valid()
      ensures answers == Upsert(old(answers), questionId, answer)
      ensures activeQuestionIndex == old(activeQuestionIndex)
    {
      UpsertKeepsIdsUnique(answers, questionId, answer);
      answers := Upsert(answers, questionId, answer);
    }

    /** Moves the focus to question `index` (ExamPaper.tsx:25-28, without scrolling). */
    method ScrollToQuestion(index: int)
      modifies this
      ensures activeQuestionIndex == index && answers == old(answers)
    {
      activeQuestionIndex := index;
    }

    /** Records `value` as the match of `key` in a MATCHING question (ExamPaper.tsx:30-38). */
    method HandleMatchingAnswer(questionId: string, key: string, value: string)
      requires Valid()
      modifies this
      ensures Valid()
      ensures answers == Upsert(old(answers), questionId,
        MatchingCodec.SetMatchingPair(GetAnswer(old(answers), questionId), key, value))
      ensures activeQuestionIndex == old(activeQuestionIndex)
    {
      var current := GetAnswer(answers, questionId);
      var pairs := MatchingCodec.StoredPairs(current);
      pairs := MatchingCodec.Put(pairs, key, value);
      HandleAnswer(questionId, MatchingCodec.Encode(pairs));
    }

    /**
     * The submit button (ExamPaper.tsx:40-45): the answers go out, as they
     * are, only when the user confirmed.
     */
    method HandleSubmit(confirmed: bool) returns (submitted: Option<seq<UserAnswer>>)
      ensures confirmed ==> submitted == Some(answers)
      ensures !confirmed ==> submitted == None
    {
      if confirmed {
        submitted := Some(answers);
      } else {
        submitted := None;
      }
    }
  }
}
