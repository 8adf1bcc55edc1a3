/**
 * One quiz attempt (src/hooks/useQuiz.js): a free-form dictionary of typed
 * answers, a two-phase flag, the scored results once submitted, and the item
 * that has the focus.
 */
module QuizSession {
  import opened Optional
  import opened Scoring

  datatype Phase = Active | Submitted

  /** `Object.values(answers).some((v) => v.trim() !== '')`. */
  predicate HasAnyAnswer(answers: map<int, string>) {
    exists id :: id in answers && Trim(answers[id]) != []
  }

  /** The state of the hook, as a value. */
  datatype Snapshot = Snapshot(answers: map<int, string>, phase: Phase, results: Option<ScoreResult>,
                               focusedId: Option<int>)

  const Initial := Snapshot(map[], Active, None, None)

  class Quiz {
    var answers: map<int, string>
    var phase: Phase
    var results: Option<ScoreResult>
    var focusedId: Option<int>

    /** The phase reads `'submitted'` exactly when there are results. */
    predicate Valid()
      reads this
    {
      phase == Submitted <==> results.Some?
    }

    function State(): Snapshot
      reads this
    {
      Snapshot(answers, phase, results, focusedId)
    }

    /** The four `useState` initial values. */
    constructor ()
      ensures Valid() && State() == Initial
    {
      answers, phase, results, focusedId := map[], Active, None, None;
    }

    /** `updateAnswer(id, value)`: any phase, one entry replaced or added. */
    method UpdateAnswer(id: int, value: string)
      requires Valid()
      modifies this
      ensures Valid()
      ensures answers == old(answers)[id := value]
      ensures phase == old(phase) && results == old(results) && focusedId == old(focusedId)
    {
      answers := answers[id := value];
    }

    /** `setFocusedId`. */
    method SetFocusedId(id: Option<int>)
      requires Valid()
      modifies this
      ensures Valid()
      ensures State() == old(State()).(focusedId := id)
    {
      focusedId := id;
    }

    /** `submit` with the data the page currently holds: nothing without data,
        otherwise the answers are scored and the phase becomes `'submitted'`. */
    method Submit(quizData: Option<seq<QuizItem>>)
      requires Valid()
      modifies this
      ensures Valid()
      ensures quizData.None? ==> State() == old(State())
      ensures quizData.Some? ==>
                State() == old(State()).(results := Some(Score(answers, quizData.value)), phase := Submitted)
    {
      if quizData.None? {
        return;
      }
      var scoreResults := CalculateScore(answers, quizData.value);
      results := Some(scoreResults);
      phase := Submitted;
    }

    /** `retry`: back to exactly the initial state. */
    method Retry()
      requires Valid()
      modifies this
      ensures Valid() && State() == Initial
    {
      answers := map[];
      results := None;
      phase := Active;
      focusedId := None;
    }
  }

  // ---------------------------------------------------------------------
  // What `hasAnyAnswer` guarantees about scoring
  // ---------------------------------------------------------------------

  lemma {:induction false} AllSkippedCounts(rs: seq<ItemResult>)
    requires forall k :: 0 <= k < |rs| ==> rs[k].isSkipped && !rs[k].isCorrect
    ensures NumSkipped(rs) == |rs| && NumCorrect(rs) == 0 && NumIncorrect(rs) == 0
  {
    if rs != [] {
      AllSkippedCounts(rs[..|rs| - 1]);
    }
  }

  /** Without any non-blank answer every item is skipped: nothing is correct
      or incorrect. */
  lemma NoAnswerAllSkipped(answers: map<int, string>, quizData: seq<QuizItem>)
    requires !HasAnyAnswer(answers)
    ensures Score(answers, quizData).skipped == |quizData|
    ensures Score(answers, quizData).correct == 0 && Score(answers, quizData).incorrect == 0
  {
    var s := Score(answers, quizData);
    ScoreTally(answers, quizData);
    forall k | 0 <= k < |quizData|
      ensures s.results[k].isSkipped && !s.results[k].isCorrect
    {
      var id := quizData[k].id;
      if id !in answers {
        assert Trim(AnswerFor(answers, id)) == [];
      }
    }
    AllSkippedCounts(s.results);
  }

  /** A non-blank answer for an item of the quiz means `hasAnyAnswer`, and
      that item is not skipped. */
  lemma AnsweredItemNotSkipped(answers: map<int, string>, quizData: seq<QuizItem>, k: nat)
    requires k < |quizData|
    requires quizData[k].id in answers && Trim(answers[quizData[k].id]) != []
    ensures HasAnyAnswer(answers)
    ensures !Score(answers, quizData).results[k].isSkipped
  {
    ScoreTally(answers, quizData);
  }

  /** Setting one answer: a non-blank value makes `hasAnyAnswer` hold, and
      afterwards it holds only if the value is non-blank or it held before. */
  lemma HasAnyAnswerUpdate(answers: map<int, string>, id: int, value: string)
    ensures Trim(value) != [] ==> HasAnyAnswer(answers[id := value])
    ensures HasAnyAnswer(answers[id := value]) ==> Trim(value) != [] || HasAnyAnswer(answers)
  {
    if Trim(value) != [] {
      assert id in answers[id := value];
    }
  }

  /** The initial state has no answer to submit. */
  lemma InitialHasNoAnswer()
    ensures !HasAnyAnswer(Initial.answers)
  {
  }
}
