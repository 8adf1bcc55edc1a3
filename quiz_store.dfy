/**
 * The score store (src/context/QuizContext.jsx): a pure reducer over a
 * dictionary of the latest scores keyed by `continentId-category`, with two
 * running totals kept alongside.
 */
module QuizStore {

  /** `{ correct, total, date }`; the date is the caller's clock reading. */
  datatype ScoreRecord = ScoreRecord(correct: int, total: int, date: int)

  datatype State = State(scores: map<string, ScoreRecord>, totalCorrect: int, totalAttempted: int)

  /** `RECORD_SCORE` with its payload, or an action of any other type. */
  datatype Action =
    | RecordScore(continentId: string, category: string, correct: int, total: int, date: int)
    | OtherAction(kind: string)

  /** `initialState`: no records, both totals zero. */
  const InitialState := State(map[], 0, 0)

  /** `${continentId}-${category}`. */
  function Key(continentId: string, category: string): (k: string)
    ensures |k| == |continentId| + 1 + |category|
    ensures k[..|continentId|] == continentId && k[|continentId|] == '-'
    ensures k[|continentId| + 1..] == category
  {
    continentId + "-" + category
  }

  /** When the category holds no `-`, the key determines both of its parts:
      the last `-` of the key is the separator. */
  lemma KeyInjective(c1: string, k1: string, c2: string, k2: string)
    requires '-' !in k1 && '-' !in k2
    requires Key(c1, k1) == Key(c2, k2)
    ensures c1 == c2 && k1 == k2
  {
  }

  /** `prev?.correct || 0` and `prev?.total || 0`. */
  function PrevCorrect(scores: map<string, ScoreRecord>, key: string): int {
    if key in scores then scores[key].correct else 0
  }

  function PrevTotal(scores: map<string, ScoreRecord>, key: string): int {
    if key in scores then scores[key].total else 0
  }

  /** `quizReducer`. */
  function Reduce(s: State, a: Action): (r: State)
    ensures a.OtherAction? ==> r == s
    ensures a.RecordScore? ==>
      var key := Key(a.continentId, a.category);
      && r.scores.Keys == s.scores.Keys + {key}
      && r.scores[key] == ScoreRecord(a.correct, a.total, a.date)
      && (forall k :: k in s.scores && k != key ==> r.scores[k] == s.scores[k])
      && r.totalCorrect == s.totalCorrect - PrevCorrect(s.scores, key) + a.correct
      && r.totalAttempted == s.totalAttempted - PrevTotal(s.scores, key) + a.total
  {
    match a
    case RecordScore(continentId, category, correct, total, date) =>
      var key := Key(continentId, category);
      State(s.scores[key := ScoreRecord(correct, total, date)],
            s.totalCorrect - PrevCorrect(s.scores, key) + correct,
            s.totalAttempted - PrevTotal(s.scores, key) + total)
    case OtherAction(_) => s
  }

  /** The state after dispatching `actions` in order from `InitialState`. */
  function Run(actions: seq<Action>): State {
    if actions == [] then InitialState
    else Reduce(Run(actions[..|actions| - 1]), actions[|actions| - 1])
  }

  // ---------------------------------------------------------------------
  // Sums over the records
  // ---------------------------------------------------------------------

  /** The sum of `f` over the records of `m`. */
  ghost function Sum(m: map<string, ScoreRecord>, f: ScoreRecord -> int): int
    decreases |m|
  {
    if m.Keys == {} then 0
    else
      var k :| k in m.Keys;
      f(m[k]) + Sum(m - {k}, f)
  }

  /** Any record may be taken out first. */
  lemma {:induction false} SumRemove(m: map<string, ScoreRecord>, f: ScoreRecord -> int, k: string)
    requires k in m
    ensures Sum(m, f) == f(m[k]) + Sum(m - {k}, f)
    decreases |m|
  {
    var j :| j in m.Keys && Sum(m, f) == f(m[j]) + Sum(m - {j}, f);
    if j != k {
      SumRemove(m - {j}, f, k);
      SumRemove(m - {k}, f, j);
      RemoveCommutes(m, j, k);
    }
  }

  lemma RemoveCommutes(m: map<string, ScoreRecord>, j: string, k: string)
    ensures m - {j} - {k} == m - {k} - {j}
  {
    assert (m - {j} - {k}).Keys == (m - {k} - {j}).Keys;
  }

  /** Storing `v` under `k` replaces the old record's share of the sum. */
  lemma SumUpdate(m: map<string, ScoreRecord>, f: ScoreRecord -> int, k: string, v: ScoreRecord)
    ensures Sum(m[k := v], f) == Sum(m, f) - (if k in m then f(m[k]) else 0) + f(v)
  {
    SumRemove(m[k := v], f, k);
    assert m[k := v] - {k} == m - {k};
    if k in m {
      SumRemove(m, f, k);
    } else {
      assert m - {k} == m;
    }
  }

  /** A record-wise bound carries over to the sums. */
  lemma {:induction false} SumMonotone(m: map<string, ScoreRecord>, f: ScoreRecord -> int, g: ScoreRecord -> int)
    requires forall k :: k in m ==> f(m[k]) <= g(m[k])
    ensures Sum(m, f) <= Sum(m, g)
    decreases |m|
  {
    if m.Keys != {} {
      var k :| k in m.Keys;
      SumRemove(m, f, k);
      SumRemove(m, g, k);
      SumMonotone(m - {k}, f, g);
    }
  }

  function CorrectOf(r: ScoreRecord): int { r.correct }

  function TotalOf(r: ScoreRecord): int { r.total }

  /** The running totals are the sums over the stored records. */
  ghost predicate Consistent(s: State) {
    && s.totalCorrect == Sum(s.scores, CorrectOf)
    && s.totalAttempted == Sum(s.scores, TotalOf)
  }

  // ---------------------------------------------------------------------
  // Properties of the reducer
  // ---------------------------------------------------------------------

  lemma InitialConsistent()
    ensures Consistent(InitialState)
  {
  }

  /** Every action keeps the totals equal to the sums over the records. */
  lemma ReducePreservesConsistency(s: State, a: Action)
    requires Consistent(s)
    ensures Consistent(Reduce(s, a))
  {
    if a.RecordScore? {
      var key := Key(a.continentId, a.category);
      var v := ScoreRecord(a.correct, a.total, a.date);
      SumUpdate(s.scores, CorrectOf, key, v);
      SumUpdate(s.scores, TotalOf, key, v);
    }
  }

  /** Whatever is dispatched from the initial state, the totals stay the sums
      over the records. */
  lemma {:induction false} RunConsistent(actions: seq<Action>)
    ensures Consistent(Run(actions))
  {
    if actions != [] {
      RunConsistent(actions[..|actions| - 1]);
      ReducePreservesConsistency(Run(actions[..|actions| - 1]), actions[|actions| - 1]);
    }
  }

  /** Recording the same key twice leaves exactly what the second recording
      alone would have left: the first one's counts are gone from the totals. */
  lemma RecordTwiceSameKey(s: State, a1: Action, a2: Action)
    requires a1.RecordScore? && a2.RecordScore?
    requires Key(a1.continentId, a1.category) == Key(a2.continentId, a2.category)
    ensures Reduce(Reduce(s, a1), a2) == Reduce(s, a2)
  {
    var key := Key(a1.continentId, a1.category);
    assert s.scores[key := ScoreRecord(a1.correct, a1.total, a1.date)][key := ScoreRecord(a2.correct, a2.total, a2.date)]
        == s.scores[key := ScoreRecord(a2.correct, a2.total, a2.date)];
  }

  /** Records whose `correct` never exceeds their `total`. */
  predicate WellFormedRecords(scores: map<string, ScoreRecord>) {
    forall k :: k in scores ==> scores[k].correct <= scores[k].total
  }

  /** In a consistent state whose records each have `correct <= total`,
      `totalCorrect <= totalAttempted`. */
  lemma TotalsOrdered(s: State)
    requires Consistent(s) && WellFormedRecords(s.scores)
    ensures s.totalCorrect <= s.totalAttempted
  {
    SumMonotone(s.scores, CorrectOf, TotalOf);
  }

  /** From the initial state, when every dispatched record has
      `correct <= total`, so do the stored ones, and the totals are ordered. */
  lemma {:induction false} RunTotalsOrdered(actions: seq<Action>)
    requires forall i :: 0 <= i < |actions| && actions[i].RecordScore? ==> actions[i].correct <= actions[i].total
    ensures WellFormedRecords(Run(actions).scores)
    ensures Run(actions).totalCorrect <= Run(actions).totalAttempted
  {
    if actions != [] {
      var init := actions[..|actions| - 1];
      assert forall i :: 0 <= i < |init| ==> init[i] == actions[i];
      RunTotalsOrdered(init);
    }
    RunConsistent(actions);
    TotalsOrdered(Run(actions));
  }
}
