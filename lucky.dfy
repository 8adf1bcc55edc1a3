/**
 * The "I'm feeling lucky" trivia round (src/pages/LuckyPage.jsx): a cycle
 * through a given order of questions, with counters for the score, the
 * number answered, the current run of correct answers and the best run.
 * The random orders come in as parameters.
 */
module Lucky {
  import opened Optional

  datatype Question = Question(question: string, options: seq<string>, answer: string)

  /** `score`, `answered`, `streak` and `bestStreak`. */
  datatype Counters = Counters(score: nat, answered: nat, streak: nat, bestStreak: nat)

  const Zero := Counters(0, 0, 0, 0)

  function Max(x: nat, y: nat): nat { if x >= y then x else y }

  /** The four counter updates of one accepted selection. */
  function SelectStep(c: Counters, isCorrect: bool): Counters {
    if isCorrect then Counters(c.score + 1, c.answered + 1, c.streak + 1, Max(c.bestStreak, c.streak + 1))
    else Counters(c.score, c.answered + 1, 0, c.bestStreak)
  }

  /** The counters after a sequence of selections, `true` for a correct one. */
  function Replay(outcomes: seq<bool>): Counters {
    if outcomes == [] then Zero else SelectStep(Replay(outcomes[..|outcomes| - 1]), outcomes[|outcomes| - 1])
  }

  // ---------------------------------------------------------------------
  // What the counters mean
  // ---------------------------------------------------------------------

  predicate Ordered(c: Counters) {
    c.streak <= c.bestStreak <= c.score <= c.answered
  }

  /** Every selection keeps `streak <= bestStreak <= score <= answered`,
      counts one more answer, and scores exactly the correct ones. */
  lemma SelectStepSpec(c: Counters, isCorrect: bool)
    requires Ordered(c)
    ensures var d := SelectStep(c, isCorrect);
      && Ordered(d)
      && d.answered == c.answered + 1
      && d.score == c.score + (if isCorrect then 1 else 0)
      && (isCorrect ==> d.streak == c.streak + 1 && d.bestStreak >= d.streak)
      && (!isCorrect ==> d.streak == 0 && d.bestStreak == c.bestStreak)
  {
  }

  /** The number of correct selections. */
  function CountCorrect(outcomes: seq<bool>): nat {
    if outcomes == [] then 0
    else CountCorrect(outcomes[..|outcomes| - 1]) + (if outcomes[|outcomes| - 1] then 1 else 0)
  }

  /** Selections `i` up to (not including) `j` were all correct. */
  predicate CorrectRun(outcomes: seq<bool>, i: int, j: int) {
    0 <= i <= j <= |outcomes| && forall k :: i <= k < j ==> outcomes[k]
  }

  /** The streak is the length of the run of correct answers that ends with
      the last selection. */
  lemma {:induction false} StreakIsTrailingRun(outcomes: seq<bool>)
    ensures var n, s := |outcomes|, Replay(outcomes).streak;
      && s <= n && CorrectRun(outcomes, n - s, n)
      && (s < n ==> !outcomes[n - s - 1])
  {
    if outcomes != [] {
      var init := outcomes[..|outcomes| - 1];
      StreakIsTrailingRun(init);
      assert forall k :: 0 <= k < |init| ==> init[k] == outcomes[k];
    }
  }

  /** A run of correct answers reaching the last selection is no longer than
      the streak. */
  lemma TrailingRunBound(outcomes: seq<bool>, i: int)
    requires CorrectRun(outcomes, i, |outcomes|)
    ensures |outcomes| - i <= Replay(outcomes).streak
  {
    var n, s := |outcomes|, Replay(outcomes).streak;
    StreakIsTrailingRun(outcomes);
    if s < n {
      assert !outcomes[n - s - 1];
    }
  }

  /** One more selection replays as one more step. */
  lemma ReplaySnoc(outcomes: seq<bool>, isCorrect: bool)
    ensures Replay(outcomes + [isCorrect]) == SelectStep(Replay(outcomes), isCorrect)
  {
    assert (outcomes + [isCorrect])[..|outcomes|] == outcomes;
  }

  /** `answered` counts the selections and `score` the correct ones, in the
      order `streak <= bestStreak <= score <= answered`. */
  lemma {:induction false} ReplayCounts(outcomes: seq<bool>)
    ensures var c := Replay(outcomes);
      && Ordered(c) && c.answered == |outcomes| && c.score == CountCorrect(outcomes)
  {
    if outcomes != [] {
      ReplayCounts(outcomes[..|outcomes| - 1]);
    }
  }

  /** No run of correct answers is longer than `bestStreak`. */
  lemma {:induction false} BestStreakBound(outcomes: seq<bool>, i: int, j: int)
    requires CorrectRun(outcomes, i, j)
    ensures j - i <= Replay(outcomes).bestStreak
  {
    var n := |outcomes|;
    if j == n {
      TrailingRunBound(outcomes, i);
      ReplayCounts(outcomes);
    } else {
      var init := outcomes[..n - 1];
      assert CorrectRun(init, i, j) by {
        forall k | i <= k < j
          ensures init[k]
        {
          assert init[k] == outcomes[k];
        }
      }
      BestStreakBound(init, i, j);
    }
  }

  /** Some run of correct answers is exactly `bestStreak` long. */
  lemma {:induction false} BestStreakAttained(outcomes: seq<bool>)
    ensures exists i, j :: CorrectRun(outcomes, i, j) && j - i == Replay(outcomes).bestStreak
  {
    var n := |outcomes|;
    if n == 0 {
      assert CorrectRun(outcomes, 0, 0);
    } else {
      var init := outcomes[..n - 1];
      var c0, c := Replay(init), Replay(outcomes);
      if c.bestStreak == c.streak {
        StreakIsTrailingRun(outcomes);
        assert CorrectRun(outcomes, n - c.streak, n);
      } else {
        BestStreakAttained(init);
        var i, j :| CorrectRun(init, i, j) && j - i == c0.bestStreak;
        assert CorrectRun(outcomes, i, j) by {
          forall k | i <= k < j
            ensures outcomes[k]
          {
            assert init[k] == outcomes[k];
          }
        }
      }
    }
  }

  // ---------------------------------------------------------------------
  // Accuracy and question order
  // ---------------------------------------------------------------------

  /** `Math.round(score / answered * 100)`, or 0 before any answer; the
      quotient is taken exactly, and a half rounds up as `Math.round` does. */
  function Accuracy(score: nat, answered: nat): (pct: int)
    ensures answered == 0 ==> pct == 0
    ensures answered > 0 ==> 200 * score - answered < 2 * pct * answered <= 200 * score + answered
  {
    if answered > 0 then
      var n, d := 200 * score + answered, 2 * answered;
      var q := n / d;
      assert q * d <= n < (q + 1) * d;
      q
    else 0
  }

  /** Cancelling a positive factor keeps a strict order. */
  lemma CancelPositive(x: int, y: int, a: int)
    requires a > 0 && x * a < y * a
    ensures x < y
  {
  }

  /** With `score <= answered`, the accuracy is a percentage. */
  lemma AccuracyInRange(score: nat, answered: nat)
    requires score <= answered
    ensures 0 <= Accuracy(score, answered) <= 100
  {
    var pct := Accuracy(score, answered);
    if answered > 0 {
      assert (2 * pct) * answered < 202 * answered;
      CancelPositive(2 * pct, 202, answered);
      assert (-2) * answered < (2 * pct) * answered;
      CancelPositive(-2, 2 * pct, answered);
    }
  }

  /** `trivia[current % trivia.length]`, none while nothing is loaded. */
  function QuestionAt(trivia: seq<Question>, current: nat): (q: Option<Question>)
    ensures q.Some? <==> |trivia| > 0
    ensures q.Some? ==> q.value in trivia
  {
    if |trivia| > 0 then Some(trivia[current % |trivia|]) else None
  }

  lemma ModOfMultiplePlus(x: int, n: int, q: int, r: int)
    requires n > 0 && 0 <= r < n && x == q * n + r
    ensures x % n == r
  {
    var q', r' := x / n, x % n;
    assert (q - q') * n == r' - r;
    CancelPositive(q - q', 1, n);
    CancelPositive(-1, q - q', n);
  }

  /** Adding `d` moves the remainder by `d` as long as it stays in range. */
  lemma ModAdd(x: int, n: int, d: int)
    requires n > 0 && 0 <= x % n + d < n
    ensures (x + d) % n == x % n + d
  {
    var q := x / n;
    assert x == q * n + x % n;
    ModOfMultiplePlus(x + d, n, q, x % n + d);
  }

  /** Adding `n` leaves the remainder modulo `n` unchanged. */
  lemma ModAddPeriod(x: int, n: int)
    requires n > 0
    ensures (x + n) % n == x % n
  {
    var q := x / n;
    assert x == q * n + x % n;
    assert x + n == (q + 1) * n + x % n;
    ModOfMultiplePlus(x + n, n, q + 1, x % n);
  }

  /** After a full round of `|trivia|` further questions the same question
      comes back. */
  lemma QuestionsRepeat(trivia: seq<Question>, current: nat)
    ensures QuestionAt(trivia, current + |trivia|) == QuestionAt(trivia, current)
  {
    if |trivia| > 0 {
      ModAddPeriod(current, |trivia|);
    }
  }

  /** Any `|trivia|` consecutive questions show every one of them. */
  lemma QuestionsCover(trivia: seq<Question>, current: nat, k: nat)
    requires k < |trivia|
    ensures exists m :: current <= m < current + |trivia| && QuestionAt(trivia, m) == Some(trivia[k])
  {
    var n := |trivia|;
    var r := current % n;
    var m;
    if k >= r {
      m := current + (k - r);
      ModAdd(current, n, k - r);
    } else {
      ModAddPeriod(current, n);
      m := current + n + (k - r);
      ModAdd(current + n, n, k - r);
    }
    assert QuestionAt(trivia, m) == Some(trivia[k]);
  }

  // ---------------------------------------------------------------------
  // The page's state and handlers
  // ---------------------------------------------------------------------

  class LuckyGame {
    var trivia: seq<Question>
    var current: nat
    var selected: Option<string>
    var score: nat
    var answered: nat
    var streak: nat
    var bestStreak: nat
    var showResult: bool
    /** The outcomes of the accepted selections since the last restart. */
    ghost var outcomes: seq<bool>

    function Counts(): Counters
      reads this
    {
      Counters(score, answered, streak, bestStreak)
    }

    /** The counters are those the selections so far produce, and the result
        is shown exactly while an option is selected. */
    ghost predicate Valid()
      reads this
    {
      && Counts() == Replay(outcomes)
      && Ordered(Counts())
      && (showResult <==> selected.Some?)
    }

    /** The initial `useState` values: nothing loaded, all zero. */
    constructor ()
      ensures Valid()
      ensures trivia == [] && current == 0 && selected.None? && Counts() == Zero && outcomes == []
    {
      trivia, current, selected := [], 0, None;
      score, answered, streak, bestStreak := 0, 0, 0, 0;
      showResult := false;
      outcomes := [];
    }

    /** The question on screen. */
    function CurrentQuestion(): (q: Option<Question>)
      reads this
      ensures q == QuestionAt(trivia, current)
    {
      QuestionAt(trivia, current)
    }

    /** The loaded trivia arrive, in an order chosen by the caller. */
    method Load(order: seq<Question>)
      requires Valid()
      modifies this
      ensures Valid()
      ensures trivia == order
      ensures current == old(current) && selected == old(selected) && Counts() == old(Counts())
      ensures outcomes == old(outcomes)
    {
      trivia := order;
    }

    /** The counter updates of an accepted selection: one more answered,
        and on a correct one the score and the streak go up and the best
        streak follows; a wrong one ends the streak. */
    method Tally(isCorrect: bool)
      requires Valid() && selected.Some?
      modifies this
      ensures Valid()
      ensures Counts() == SelectStep(old(Counts()), isCorrect)
      ensures outcomes == old(outcomes) + [isCorrect]
      ensures trivia == old(trivia) && current == old(current) && selected == old(selected)
      ensures showResult == old(showResult)
    {
      ReplaySnoc(outcomes, isCorrect);
      SelectStepSpec(Counts(), isCorrect);
      answered := answered + 1;
      if isCorrect {
        score := score + 1;
        var next := streak + 1;
        bestStreak := Max(bestStreak, next);
        streak := next;
      } else {
        streak := 0;
      }
      outcomes := outcomes + [isCorrect];
    }

    /** `handleSelect(option)` on a shown question: ignored once an option
        is selected; otherwise the option is selected, one more question is
        answered, and the score and streaks follow whether it was the
        question's answer. */
    method Select(option: string)
      requires Valid() && |trivia| > 0
      modifies this
      ensures Valid()
      ensures trivia == old(trivia) && current == old(current)
      ensures old(selected).Some? ==> selected == old(selected) && Counts() == old(Counts())
      ensures old(selected).None? ==>
                && selected == Some(option) && showResult
                && Counts() == SelectStep(old(Counts()), option == old(CurrentQuestion()).value.answer)
                && outcomes == old(outcomes) + [option == old(CurrentQuestion()).value.answer]
    {
      if selected.Some? {
        return;
      }
      var question := trivia[current % |trivia|];
      selected := Some(option);
      showResult := true;
      Tally(option == question.answer);
    }

    /** `handleNext`, offered once the result shows: clear the selection and
        move to the next question. */
    method Next()
      requires Valid() && showResult
      modifies this
      ensures Valid()
      ensures selected.None? && !showResult && current == old(current) + 1
      ensures trivia == old(trivia) && Counts() == old(Counts()) && outcomes == old(outcomes)
    {
      selected := None;
      showResult := false;
      current := current + 1;
    }

    /** `handleRestart`, offered once the result shows: the trivia in a new
        order (the same questions), and everything else back to zero. */
    method Restart(order: seq<Question>)
      requires Valid() && showResult
      requires multiset(order) == multiset(trivia)
      modifies this
      ensures Valid()
      ensures trivia == order && current == 0 && selected.None? && !showResult
      ensures Counts() == Zero && outcomes == []
    {
      trivia := order;
      current := 0;
      selected := None;
      showResult := false;
      score, answered, streak, bestStreak := 0, 0, 0, 0;
      outcomes := [];
    }
  }
}
