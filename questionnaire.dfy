/**
 * The FHIR shapes the web client reads and writes: the SUS Questionnaire it
 * fetches (an ordered list of `{linkId, text}` questions) and the
 * QuestionnaireResponse it builds from the slider answers.
 */
module Questionnaires {

  datatype Option<+T> = None | Some(value: T)

  /** One question of the fetched Questionnaire resource. */
  datatype Question = Question(linkId: string, text: string)

  /** The fetched Questionnaire; only its ordered `item` list is used by the core. */
  datatype Questionnaire = Questionnaire(item: seq<Question>)

  /**
   * The slider answers as the client keeps them: a JavaScript object keyed
   * by linkId. Nothing restricts its keys to the questionnaire's linkIds.
   */
  type Answers = map<string, int>

  /** One entry of a response item's `answer` array. */
  datatype AnswerValue = ValueInteger(valueInteger: int)

  /** One answered question of a QuestionnaireResponse. */
  datatype ResponseItem = ResponseItem(linkId: string, text: string, answer: seq<AnswerValue>)

  datatype Reference = Reference(reference: string)

  /** The QuestionnaireResponse resource posted to the FHIR server. */
  datatype QuestionnaireResponse = QuestionnaireResponse(
    resourceType: string,
    status: string,
    questionnaire: string,
    subject: Reference,
    authored: string,
    item: seq<ResponseItem>)

  const ResponseResourceType := "QuestionnaireResponse"
  /** The one instrument the client knows, referenced by a fixed logical id. */
  const SusQuestionnaireRef := "Questionnaire/german-sus-form"
  /** The two FHIR QuestionnaireResponse status codes the client uses. */
  const StatusInProgress := "in-progress"
  const StatusCompleted := "completed"

  /** The linkIds of a question list are pairwise different. */
  predicate DistinctLinkIds(qs: seq<Question>) {
    forall i, j :: 0 <= i < j < |qs| ==> qs[i].linkId != qs[j].linkId
  }

  /** A sequence without repetitions has as many distinct elements as it is long. */
  lemma {:induction false} DistinctElementsCount<T>(s: seq<T>)
    requires forall i, j :: 0 <= i < j < |s| ==> s[i] != s[j]
    ensures |set x | x in s| == |s|
  {
    if s != [] {
      DistinctElementsCount(s[1..]);
      assert (set x | x in s) == {s[0]} + (set x | x in s[1..]);
      assert s[0] !in (set x | x in s[1..]);
    }
  }
}
