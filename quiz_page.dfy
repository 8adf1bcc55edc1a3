/**
 * The quiz page's controller (src/pages/QuizPage.jsx): one quiz session, one
 * 180-second countdown and the shared score store, wired together by two
 * effects (auto-submit on expiry, record the score once results appear) and
 * the retry handler.  The data loaded for the page is `None` while loading or
 * when loading failed.
 */
module QuizPage {
  import opened Optional
  import opened Scoring
  import opened QuizStore
  import opened QuizSession
  import opened Timer

  /** `useTimer(180, true)`. */
  const PageSeconds := 180

  /** The page shows the quiz (and not "Coming Soon") exactly when data was
      loaded and holds at least one item. */
  predicate ShowsQuiz(quizData: Option<seq<QuizItem>>) {
    quizData.Some? && |quizData.value| > 0
  }

  /** The auto-submit effect's guard as written: expired, still active, and
      `quizData` truthy, which an empty list also is. */
  predicate AutoSubmitDueAsWritten(expired: bool, phase: Phase, quizData: Option<seq<QuizItem>>) {
    expired && phase == Active && quizData.Some?
  }

  /** The guard the page means: only a quiz that is actually shown is
      submitted. */
  predicate AutoSubmitDue(expired: bool, phase: Phase, quizData: Option<seq<QuizItem>>) {
    expired && phase == Active && ShowsQuiz(quizData)
  }

  /** As written, the "Coming Soon" page of an empty data file is submitted
      when its (invisible) timer runs out, and the store then holds a record
      of 0 out of 0 for a category that has no quiz. */
  lemma ComingSoonPageRecordsZero(answers: map<int, string>, store: State, continentId: string, category: string,
                                  now: int)
    ensures AutoSubmitDueAsWritten(true, Active, Some([]))
    ensures !ShowsQuiz(Some([]))
    ensures var s := Score(answers, []);
      var after := Reduce(store, RecordScore(continentId, category, s.correct, s.total, now));
      after.scores[Key(continentId, category)] == ScoreRecord(0, 0, now)
  {
    ScoreTally(answers, []);
  }

  /** The corrected guard fires only on a shown quiz, and there it agrees
      with the guard as written. */
  lemma AutoSubmitDueCorrected(expired: bool, phase: Phase, quizData: Option<seq<QuizItem>>)
    ensures AutoSubmitDue(expired, phase, quizData) ==> ShowsQuiz(quizData)
    ensures ShowsQuiz(quizData) ==>
              (AutoSubmitDue(expired, phase, quizData) <==> AutoSubmitDueAsWritten(expired, phase, quizData))
    ensures !ShowsQuiz(quizData) ==> !AutoSubmitDue(expired, phase, quizData)
  {
  }

  class Controller {
    const continentId: string
    const category: string
    const quiz: Quiz
    const timer: Countdown
    var loading: bool
    var quizData: Option<seq<QuizItem>>
    var store: State

    /** The pieces are each consistent; the timer is the page's; a submitted
        quiz had data (possibly an empty list), its results score the current
        answers, the timer is stopped and the store holds its counts under
        this page's key. */
    ghost predicate Valid()
      reads this, quiz, timer
    {
      && quiz.Valid() && timer.Valid()
      && timer.initialSeconds == PageSeconds && timer.enabled
      && Consistent(store)
      && (loading ==> quizData.None?)
      && (quiz.phase == Submitted ==>
            && quizData.Some?
            && quiz.results == Some(Score(quiz.answers, quizData.value))
            && !timer.isRunning
            && Key(continentId, category) in store.scores
            && store.scores[Key(continentId, category)].correct == quiz.results.value.correct
            && store.scores[Key(continentId, category)].total == quiz.results.value.total)
    }

    /** The `RECORD_SCORE` action the record effect dispatches for `answers`
        scored against `data`. */
    function RecordOf(answers: map<int, string>, data: seq<QuizItem>, now: int): Action {
      RecordScore(continentId, category, Score(answers, data).correct, Score(answers, data).total, now)
    }

    /** Mounting the page: no data yet, a fresh quiz, the countdown already
        running. */
    constructor (continentId: string, category: string, store: State)
      requires Consistent(store)
      ensures Valid()
      ensures this.continentId == continentId && this.category == category && this.store == store
      ensures loading && quizData.None?
      ensures quiz.State() == Initial && timer.State() == Clock(PageSeconds, true)
      ensures fresh(quiz) && fresh(timer)
    {
      this.continentId := continentId;
      this.category := category;
      this.store := store;
      loading := true;
      quizData := None;
      quiz := new Quiz();
      timer := new Countdown(PageSeconds, true);
    }

    /** `quiz.submit()` with data present, and then the record effect: the
        timer stops and `RECORD_SCORE` is dispatched with this page's key and
        the counts.  An empty list is data too. */
    method SubmitAndRecord(now: int)
      requires Valid() && quiz.phase == Active && quizData.Some?
      modifies quiz, timer, this
      ensures Valid()
      ensures loading == old(loading) && quizData == old(quizData)
      ensures quiz.State() == old(quiz.State()).(results := Some(Score(old(quiz.answers), quizData.value)),
                                                 phase := Submitted)
      ensures timer.State() == Clock(old(timer.seconds), false)
      ensures store == Reduce(old(store), RecordOf(old(quiz.answers), quizData.value, now))
    {
      quiz.Submit(quizData);
      var results := quiz.results.value;
      timer.Stop();
      ReducePreservesConsistency(store, RecordScore(continentId, category, results.correct, results.total, now));
      store := Reduce(store, RecordScore(continentId, category, results.correct, results.total, now));
    }

    /** The auto-submit effect as written, run whenever the expiry, the phase
        or the data change: it fires on any data, an empty list included. */
    method AutoSubmitEffect(now: int)
      requires Valid()
      modifies quiz, timer, this
      ensures Valid()
      ensures loading == old(loading) && quizData == old(quizData)
      ensures AutoSubmitDueAsWritten(old(timer.IsExpired()), old(quiz.phase), quizData) ==>
                && quiz.State() == old(quiz.State()).(results := Some(Score(old(quiz.answers), quizData.value)),
                                                       phase := Submitted)
                && timer.State() == Clock(old(timer.seconds), false)
                && store == Reduce(old(store), RecordOf(old(quiz.answers), quizData.value, now))
      ensures !AutoSubmitDueAsWritten(old(timer.IsExpired()), old(quiz.phase), quizData) ==>
                quiz.State() == old(quiz.State()) && timer.State() == old(timer.State()) && store == old(store)
    {
      if AutoSubmitDueAsWritten(timer.IsExpired(), quiz.phase, quizData) {
        SubmitAndRecord(now);
      }
    }

    /** The auto-submit effect with the corrected guard: only a shown quiz is
        submitted, so whatever it records is never 0 out of 0. */
    method AutoSubmitEffectCorrected(now: int)
      requires Valid()
      modifies quiz, timer, this
      ensures Valid()
      ensures loading == old(loading) && quizData == old(quizData)
      ensures AutoSubmitDue(old(timer.IsExpired()), old(quiz.phase), quizData) ==>
                && quiz.State() == old(quiz.State()).(results := Some(Score(old(quiz.answers), quizData.value)),
                                                       phase := Submitted)
                && timer.State() == Clock(old(timer.seconds), false)
                && store == Reduce(old(store), RecordOf(old(quiz.answers), quizData.value, now))
                && store.scores[Key(continentId, category)].total == |quizData.value| > 0
      ensures !AutoSubmitDue(old(timer.IsExpired()), old(quiz.phase), quizData) ==>
                quiz.State() == old(quiz.State()) && timer.State() == old(timer.State()) && store == old(store)
    {
      if AutoSubmitDue(timer.IsExpired(), quiz.phase, quizData) {
        SubmittedTotalPositive(quizData, quiz.answers);
        SubmitAndRecord(now);
      }
    }

    /** Loading finished with `data` (`None` when it failed); the auto-submit
        effect sees the new data. */
    method Loaded(data: Option<seq<QuizItem>>, now: int)
      requires Valid() && loading
      modifies quiz, timer, this
      ensures Valid()
      ensures !loading && quizData == data
      ensures AutoSubmitDueAsWritten(old(timer.IsExpired()), old(quiz.phase), data) ==>
                && quiz.State() == old(quiz.State()).(results := Some(Score(old(quiz.answers), data.value)),
                                                       phase := Submitted)
                && timer.State() == Clock(old(timer.seconds), false)
                && store == Reduce(old(store), RecordOf(old(quiz.answers), data.value, now))
      ensures !AutoSubmitDueAsWritten(old(timer.IsExpired()), old(quiz.phase), data) ==>
                quiz.State() == old(quiz.State()) && timer.State() == old(timer.State()) && store == old(store)
    {
      loading := false;
      quizData := data;
      AutoSubmitEffect(now);
    }

    /** One firing of the countdown's interval, then the auto-submit effect:
        an active quiz with data whose time has just run out is scored,
        whatever its answers, and its counts are recorded. */
    method SecondElapsed(now: int)
      requires Valid()
      modifies quiz, timer, this
      ensures Valid()
      ensures loading == old(loading) && quizData == old(quizData)
      ensures old(quiz.phase) == Active && quizData.Some? && Expired(Advance(old(timer.State()))) ==>
                && quiz.State() == old(quiz.State()).(results := Some(Score(old(quiz.answers), quizData.value)),
                                                       phase := Submitted)
                && timer.State() == Clock(0, false)
                && store == Reduce(old(store), RecordOf(old(quiz.answers), quizData.value, now))
      ensures !(old(quiz.phase) == Active && quizData.Some? && Expired(Advance(old(timer.State())))) ==>
                quiz.State() == old(quiz.State()) && timer.State() == Advance(old(timer.State()))
                && store == old(store)
    {
      timer.Tick();
      AutoSubmitEffect(now);
    }

    /** Typing into an item's input, which the page offers only while the
        quiz is active. */
    method EditAnswer(id: int, value: string)
      requires Valid() && quiz.phase == Active
      modifies quiz
      ensures Valid()
      ensures quiz.State() == old(quiz.State()).(answers := old(quiz.answers)[id := value])
    {
      quiz.UpdateAnswer(id, value);
    }

    /** The Submit button, enabled only on a shown, active quiz with some
        non-blank answer. */
    method PressSubmit(now: int)
      requires Valid() && quiz.phase == Active && ShowsQuiz(quizData) && HasAnyAnswer(quiz.answers)
      modifies quiz, timer, this
      ensures Valid()
      ensures loading == old(loading) && quizData == old(quizData)
      ensures quiz.State() == old(quiz.State()).(results := Some(Score(old(quiz.answers), quizData.value)),
                                                 phase := Submitted)
      ensures timer.State() == Clock(old(timer.seconds), false)
      ensures store == Reduce(old(store), RecordOf(old(quiz.answers), quizData.value, now))
    {
      SubmitAndRecord(now);
    }

    /** `handleRetry`, offered on the results view: `quiz.retry()` then
        `timer.reset()`.  The store keeps the recorded score. */
    method Retry()
      requires Valid() && quiz.phase == Submitted
      modifies quiz, timer
      ensures Valid()
      ensures quiz.State() == Initial
      ensures timer.State() == Clock(PageSeconds, true)
    {
      quiz.Retry();
      timer.Reset();
    }
  }

  /** The page as written, on a data file holding an empty list: it shows
      "Coming Soon", yet once the 180 seconds have elapsed the quiz is
      submitted and 0 out of 0 is recorded under its key. */
  method EmptyDataRecordsZero(continentId: string, category: string, store: State, now: int)
    returns (page: Controller)
    requires Consistent(store)
    ensures !page.loading && page.quizData == Some([]) && !ShowsQuiz(page.quizData)
    ensures page.quiz.phase == Submitted
    ensures Key(continentId, category) in page.store.scores
    ensures page.store.scores[Key(continentId, category)].correct == 0
    ensures page.store.scores[Key(continentId, category)].total == 0
  {
    page := new Controller(continentId, category, store);
    page.Loaded(Some([]), now);
    var k := 0;
    while k < PageSeconds
      invariant 0 <= k <= PageSeconds
      invariant fresh(page) && fresh(page.quiz) && fresh(page.timer)
      invariant page.continentId == continentId && page.category == category
      invariant page.Valid() && !page.loading && page.quizData == Some([])
      invariant k < PageSeconds ==> page.quiz.phase == Active && page.timer.State() == Clock(PageSeconds - k, true)
      invariant k == PageSeconds ==> page.quiz.phase == Submitted
    {
      page.SecondElapsed(now);
      k := k + 1;
    }
    ScoreTally(page.quiz.answers, []);
  }

  /** On a shown quiz the score's total is the number of items, which is
      positive: with the corrected guard, no 0 out of 0 is ever recorded. */
  lemma SubmittedTotalPositive(quizData: Option<seq<QuizItem>>, answers: map<int, string>)
    requires ShowsQuiz(quizData)
    ensures Score(answers, quizData.value).total == |quizData.value| > 0
  {
    ScoreTally(answers, quizData.value);
  }
}
