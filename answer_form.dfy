/**
 * The form around the two computations: a slider change replaces the answer
 * map by a copy with one key overwritten and rebuilds the live response; the
 * submit button is enabled from ten answer keys on; submitting builds the
 * response with status `completed`.
 */
module AnswerForm {
  import opened Questionnaires
  import opened ResponseBuilder
  import opened SusScore

  /** `{ ...answers, [linkId]: value }`: a new map, one key set, the rest copied. */
  function SetAnswer(answers: Answers, linkId: string, value: int): (r: Answers)
    ensures r.Keys == answers.Keys + {linkId}
    ensures r[linkId] == value
    ensures forall k :: k in answers && k != linkId ==> r[k] == answers[k]
  {
    answers[linkId := value]
  }

  /** The submit button's `disabled={keys.length < 10}`, negated. */
  predicate SubmitEnabled(answers: Answers)
    ensures SubmitEnabled(answers) <==> |answers.Keys| >= RequiredAnswers
  {
    !(|answers| < RequiredAnswers)
  }

  /**
   * `handleSliderChange`: the new answers and the live-log response built
   * from them, which is always still `in-progress`.
   */
  function HandleSliderChange(questionnaire: Option<Questionnaire>, answers: Answers,
                              patientId: Option<string>, linkId: string, value: int,
                              authored: string)
    : (r: (Answers, QuestionnaireResponse))
    ensures r.0 == SetAnswer(answers, linkId, value)
    ensures r.1.status == StatusInProgress
    ensures r.1 == BuildResponse(questionnaire, r.0, patientId, false, authored)
  {
    var newAnswers := SetAnswer(answers, linkId, value);
    (newAnswers, BuildResponse(questionnaire, newAnswers, patientId, false, authored))
  }

  /** `submitForm`'s payload: the same items as the live log, now `completed`. */
  function SubmitPayload(questionnaire: Option<Questionnaire>, answers: Answers,
                         patientId: Option<string>, authored: string)
    : (r: QuestionnaireResponse)
    ensures r.status == StatusCompleted
    ensures r.item == BuildResponse(questionnaire, answers, patientId, false, authored).item
    ensures r.subject == BuildResponse(questionnaire, answers, patientId, false, authored).subject
  {
    BuildResponse(questionnaire, answers, patientId, true, authored)
  }

  /** A slider change adds one key when the question was unanswered and none otherwise. */
  lemma SetAnswerCount(answers: Answers, linkId: string, value: int)
    ensures |SetAnswer(answers, linkId, value)| == if linkId in answers then |answers| else |answers| + 1
  {
  }

  /** Once enabled, the submit button stays enabled through further slider changes. */
  lemma SubmitStaysEnabled(answers: Answers, linkId: string, value: int)
    requires SubmitEnabled(answers)
    ensures SubmitEnabled(SetAnswer(answers, linkId, value))
  {
  }

  /** The submit button is disabled exactly when `calculateSUS` is not ready. */
  lemma SubmitGateMatchesReadiness(questionnaire: Option<Questionnaire>, answers: Answers)
    ensures SubmitEnabled(answers) <==> !Sus(questionnaire, answers).NotReady?
  {
  }

  /** Answering all ten questions of a questionnaire with distinct linkIds enables submit. */
  lemma CompleteAnswersEnableSubmit(qs: seq<Question>, answers: Answers)
    requires |qs| == RequiredAnswers && DistinctLinkIds(qs)
    requires AllAnswered(qs, answers)
    ensures SubmitEnabled(answers)
  {
    var ids := seq(|qs|, i requires 0 <= i < |qs| => qs[i].linkId);
    DistinctElementsCount(ids);
    var idSet := set x | x in ids;
    assert idSet <= answers.Keys;
    SubsetCardinality(idSet, answers.Keys);
  }

  lemma {:induction false} SubsetCardinality<T>(a: set<T>, b: set<T>)
    requires a <= b
    ensures |a| <= |b|
  {
    if a != {} {
      var x :| x in a;
      SubsetCardinality(a - {x}, b - {x});
    }
  }

  /**
   * After a slider change, the live log shows the new value for every
   * question carrying that linkId.
   */
  lemma SliderChangeShowsAnswer(q: Questionnaire, answers: Answers, patientId: Option<string>,
                                linkId: string, value: int, authored: string, i: nat)
    requires i < |q.item| && q.item[i].linkId == linkId
    ensures ResponseItem(linkId, q.item[i].text, [ValueInteger(value)])
            in HandleSliderChange(Some(q), answers, patientId, linkId, value, authored).1.item
  {
    var newAnswers := SetAnswer(answers, linkId, value);
    AnsweredQuestionHasItem(q.item, newAnswers, i);
  }

  /**
   * A slider change under a key that no question uses leaves the live log's
   * items as they were, although a new such key still adds one to the count
   * the submit gate reads.
   */
  lemma StrayKeyLeavesItems(q: Questionnaire, answers: Answers, patientId: Option<string>,
                            linkId: string, value: int, authored: string)
    requires forall i :: 0 <= i < |q.item| ==> q.item[i].linkId != linkId
    ensures HandleSliderChange(Some(q), answers, patientId, linkId, value, authored).1.item
            == BuildResponse(Some(q), answers, patientId, false, authored).item
    ensures linkId !in answers ==>
              |HandleSliderChange(Some(q), answers, patientId, linkId, value, authored).0| == |answers| + 1
  {
    UnaskedKeyIgnored(q.item, answers, linkId, value);
    SetAnswerCount(answers, linkId, value);
  }
}
