/**
 * `calculateSUS`: the System Usability Scale score of the slider answers.
 * Question `n` (1-based) contributes `v - 1` when `n` is odd (a positively
 * phrased statement) and `5 - v` when `n` is even (a negatively phrased one);
 * the sum is scaled by 2.5 onto 0..100.
 */
module SusScore {
  import opened Questionnaires

  /** `calculateSUS` needs this many answer keys before it scores. */
  const RequiredAnswers := 10
  /** The verdict "good usability" is shown from this score on. */
  const GoodUsabilityThreshold := 68.0

  /**
   * What `calculateSUS` yields: `null` while fewer than ten keys exist, a
   * TypeError when no questionnaire is loaded, NaN when a question's linkId
   * has no answer (`undefined - 1`), and otherwise the score.
   */
  datatype SusOutcome = NotReady | NoQuestionnaire | NotANumber | Score(points: real)

  /** The answer that earns a question's full 4 points: 5 when agreeing is positive, 1 otherwise. */
  function BestAnswer(position: nat): int {
    if position % 2 != 0 then 5 else 1
  }

  /** The answer that earns a question no points. */
  function WorstAnswer(position: nat): int {
    if position % 2 != 0 then 1 else 5
  }

  /** The points answer `v` earns at 1-based `position`. */
  function Contribution(position: nat, v: int): (c: int)
    ensures 1 <= v <= 5 ==> 0 <= c <= 4
    ensures 1 <= v <= 5 ==> (c == 4 <==> v == BestAnswer(position))
    ensures 1 <= v <= 5 ==> (c == 0 <==> v == WorstAnswer(position))
    ensures v == 3 ==> c == 2
  {
    if position % 2 != 0 then v - 1 else 5 - v
  }

  /** Every question's linkId is a key of the answers. */
  predicate AllAnswered(qs: seq<Question>, answers: Answers) {
    forall i :: 0 <= i < |qs| ==> qs[i].linkId in answers
  }

  /** Every question is answered, on the slider's 1..5 scale. */
  predicate AnsweredOnScale(qs: seq<Question>, answers: Answers) {
    forall i :: 0 <= i < |qs| ==> qs[i].linkId in answers && 1 <= answers[qs[i].linkId] <= 5
  }

  /**
   * The running `totalScore` after the questions `qs`, counted from the
   * first: None stands for NaN, which any unanswered question introduces and
   * no later addition removes.
   */
  function RawSum(qs: seq<Question>, answers: Answers): (r: Option<int>)
    ensures qs == [] ==> r == Some(0)
    ensures forall i :: 0 <= i < |qs| && qs[i].linkId !in answers ==> r.None?
  {
    if qs == [] then Some(0)
    else
      var last := qs[|qs| - 1];
      match RawSum(qs[..|qs| - 1], answers)
      case None => None
      case Some(s) =>
        if last.linkId in answers then Some(s + Contribution(|qs|, answers[last.linkId])) else None
  }

  /** The value `calculateSUS` returns for the loaded questionnaire and the answers. */
  function Sus(questionnaire: Option<Questionnaire>, answers: Answers): (o: SusOutcome)
    ensures o.NotReady? <==> |answers| < RequiredAnswers
    ensures o.NoQuestionnaire? <==> |answers| >= RequiredAnswers && questionnaire.None?
    ensures o.Score? ==> questionnaire.Some? && RawSum(questionnaire.value.item, answers).Some?
  {
    if |answers| < RequiredAnswers then NotReady
    else match questionnaire
      case None => NoQuestionnaire
      case Some(q) =>
        match RawSum(q.item, answers)
        case None => NotANumber
        case Some(s) => Score(s as real * 2.5)
  }

  /** `calculateSUS`: the key-count gate, then one pass accumulating `totalScore`. */
  method CalculateSus(questionnaire: Option<Questionnaire>, answers: Answers) returns (o: SusOutcome)
    ensures o == Sus(questionnaire, answers)
  {
    if |answers| < RequiredAnswers {
      return NotReady;
    }
    if questionnaire.None? {
      return NoQuestionnaire;
    }
    var items := questionnaire.value.item;
    var totalScore: Option<int> := Some(0);
    var index := 0;
    while index < |items|
      invariant 0 <= index <= |items|
      invariant totalScore == RawSum(items[..index], answers)
    {
      var item := items[index];
      var questionNumber := index + 1;
      assert items[..index + 1][..index] == items[..index];
      if item.linkId !in answers {
        totalScore := None;
      } else if totalScore.Some? {
        var response := answers[item.linkId];
        if questionNumber % 2 != 0 {
          totalScore := Some(totalScore.value + (response - 1));
        } else {
          totalScore := Some(totalScore.value + (5 - response));
        }
      }
      index := index + 1;
    }
    assert items[..index] == items;
    o := match totalScore
         case None => NotANumber
         case Some(s) => Score(s as real * 2.5);
  }

  /** The "good usability" verdict; `null >= 68` and `NaN >= 68` are both false. */
  predicate GoodUsability(o: SusOutcome)
    ensures !o.Score? ==> !GoodUsability(o)
    ensures o.Score? ==> (GoodUsability(o) <==> o.points >= GoodUsabilityThreshold)
  {
    o.Score? && o.points >= GoodUsabilityThreshold
  }

  /** The running total is a number exactly when every question is answered. */
  lemma {:induction false} RawSumDefinedIff(qs: seq<Question>, answers: Answers)
    ensures RawSum(qs, answers).Some? <==> AllAnswered(qs, answers)
  {
    if qs != [] {
      var init := qs[..|qs| - 1];
      RawSumDefinedIff(init, answers);
      assert forall i :: 0 <= i < |init| ==> init[i] == qs[i];
    }
  }

  /** With every answer on the 1..5 scale the total lies in 0..4 per question. */
  lemma {:induction false} RawSumBounds(qs: seq<Question>, answers: Answers)
    requires AnsweredOnScale(qs, answers)
    ensures RawSum(qs, answers).Some?
    ensures 0 <= RawSum(qs, answers).value <= 4 * |qs|
  {
    if qs != [] {
      var init := qs[..|qs| - 1];
      assert forall i :: 0 <= i < |init| ==> init[i] == qs[i];
      RawSumBounds(init, answers);
      assert qs[|qs| - 1].linkId in answers;
    }
  }

  /** The total reaches its maximum exactly when every answer is its question's best one. */
  lemma {:induction false} RawSumMaxIff(qs: seq<Question>, answers: Answers)
    requires AnsweredOnScale(qs, answers)
    ensures RawSum(qs, answers) == Some(4 * |qs|) <==>
            forall i :: 0 <= i < |qs| ==> answers[qs[i].linkId] == BestAnswer(i + 1)
  {
    if qs != [] {
      var init := qs[..|qs| - 1];
      var n := |qs|;
      assert forall i :: 0 <= i < |init| ==> init[i] == qs[i];
      RawSumMaxIff(init, answers);
      RawSumBounds(init, answers);
      var last := answers[qs[n - 1].linkId];
      assert RawSum(qs, answers) == Some(RawSum(init, answers).value + Contribution(n, last));
      if forall i :: 0 <= i < n ==> answers[qs[i].linkId] == BestAnswer(i + 1) {
        assert last == BestAnswer(n);
      }
    }
  }

  /** The total is zero exactly when every answer is its question's worst one. */
  lemma {:induction false} RawSumMinIff(qs: seq<Question>, answers: Answers)
    requires AnsweredOnScale(qs, answers)
    ensures RawSum(qs, answers) == Some(0) <==>
            forall i :: 0 <= i < |qs| ==> answers[qs[i].linkId] == WorstAnswer(i + 1)
  {
    if qs != [] {
      var init := qs[..|qs| - 1];
      var n := |qs|;
      assert forall i :: 0 <= i < |init| ==> init[i] == qs[i];
      RawSumMinIff(init, answers);
      RawSumBounds(init, answers);
      var last := answers[qs[n - 1].linkId];
      assert RawSum(qs, answers) == Some(RawSum(init, answers).value + Contribution(n, last));
      if forall i :: 0 <= i < n ==> answers[qs[i].linkId] == WorstAnswer(i + 1) {
        assert last == WorstAnswer(n);
      }
    }
  }

  /** Answering every question with the midpoint 3 earns 2 points a question. */
  lemma {:induction false} RawSumMidpoint(qs: seq<Question>, answers: Answers)
    requires forall i :: 0 <= i < |qs| ==> qs[i].linkId in answers && answers[qs[i].linkId] == 3
    ensures RawSum(qs, answers) == Some(2 * |qs|)
  {
    if qs != [] {
      var init := qs[..|qs| - 1];
      assert forall i :: 0 <= i < |init| ==> init[i] == qs[i];
      RawSumMidpoint(init, answers);
      assert qs[|qs| - 1].linkId in answers;
    }
  }

  /**
   * Ten questions answered on the 1..5 scale, with the key-count gate
   * passed, give a score in 0..100.
   */
  lemma ScoreInRange(q: Questionnaire, answers: Answers)
    requires |q.item| == 10 && AnsweredOnScale(q.item, answers)
    requires |answers| >= RequiredAnswers
    ensures Sus(Some(q), answers).Score?
    ensures 0.0 <= Sus(Some(q), answers).points <= 100.0
  {
    RawSumBounds(q.item, answers);
  }

  /** All answers 3 score 50. */
  lemma MidpointScoresFifty(q: Questionnaire, answers: Answers)
    requires |q.item| == 10 && |answers| >= RequiredAnswers
    requires forall i :: 0 <= i < |q.item| ==> q.item[i].linkId in answers && answers[q.item[i].linkId] == 3
    ensures Sus(Some(q), answers) == Score(50.0)
  {
    RawSumMidpoint(q.item, answers);
  }

  /** Alternating 5, 1, 5, 1, ... scores 100. */
  lemma BestAnswersScoreHundred(q: Questionnaire, answers: Answers)
    requires |q.item| == 10 && |answers| >= RequiredAnswers && AnsweredOnScale(q.item, answers)
    requires forall i :: 0 <= i < |q.item| ==> answers[q.item[i].linkId] == BestAnswer(i + 1)
    ensures Sus(Some(q), answers) == Score(100.0)
  {
    RawSumMaxIff(q.item, answers);
  }

  /** Alternating 1, 5, 1, 5, ... scores 0. */
  lemma WorstAnswersScoreZero(q: Questionnaire, answers: Answers)
    requires |q.item| == 10 && |answers| >= RequiredAnswers && AnsweredOnScale(q.item, answers)
    requires forall i :: 0 <= i < |q.item| ==> answers[q.item[i].linkId] == WorstAnswer(i + 1)
    ensures Sus(Some(q), answers) == Score(0.0)
  {
    RawSumMinIff(q.item, answers);
  }

  /**
   * The verdict in terms of the raw total: scores move in steps of 2.5, so
   * 28 points (a score of 70) is the least that counts as good usability.
   */
  lemma GoodUsabilityIff(q: Questionnaire, answers: Answers)
    ensures GoodUsability(Sus(Some(q), answers)) <==>
            |answers| >= RequiredAnswers && RawSum(q.item, answers).Some?
            && RawSum(q.item, answers).value >= 28
  {
  }

  /**
   * The readiness gate counts keys, not questions: once ten keys exist, a
   * question whose linkId is not among them makes the score NaN.
   */
  lemma KeyCountIsNotCompleteness(q: Questionnaire, answers: Answers, i: nat)
    requires |answers| >= RequiredAnswers
    requires i < |q.item| && q.item[i].linkId !in answers
    ensures Sus(Some(q), answers) == NotANumber
  {
  }
}
