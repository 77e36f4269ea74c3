/**
 * `createResponseResource`: turns the current slider answers into a FHIR
 * QuestionnaireResponse. Questions are walked in questionnaire order; an
 * answered question becomes an item carrying its own linkId, its text and one
 * `valueInteger`; an unanswered one is dropped.
 */
module ResponseBuilder {
  import opened Questionnaires

  /** The response item for an answered question. */
  function ItemFor(q: Question, answers: Answers): (it: ResponseItem)
    requires q.linkId in answers
    ensures it.linkId == q.linkId && it.text == q.text
    ensures it.answer == [ValueInteger(answers[q.linkId])]
  {
    ResponseItem(q.linkId, q.text, [ValueInteger(answers[q.linkId])])
  }

  /**
   * The `map`/`filter` over the questionnaire's items: every item produced
   * answers a question present in `answers`, with exactly that answer.
   */
  function AnsweredItems(qs: seq<Question>, answers: Answers): (items: seq<ResponseItem>)
    ensures |items| <= |qs|
    ensures forall k :: 0 <= k < |items| ==>
              items[k].linkId in answers && items[k].answer == [ValueInteger(answers[items[k].linkId])]
  {
    if qs == [] then []
    else
      (if qs[0].linkId in answers then [ItemFor(qs[0], answers)] else [])
      + AnsweredItems(qs[1..], answers)
  }

  /** The `subject.reference` text: an absent patient id prints as `undefined`. */
  function SubjectReference(patientId: Option<string>): (ref: string)
    ensures patientId.Some? ==> ref == "Patient/" + patientId.value
    ensures patientId.None? ==> ref == "Patient/undefined"
  {
    "Patient/" + match patientId
                 case Some(id) => id
                 case None => "undefined"
  }

  /**
   * The response resource. `questionnaire` is None before a questionnaire
   * has been loaded; `authored` is the timestamp the caller generated.
   */
  function BuildResponse(questionnaire: Option<Questionnaire>, answers: Answers,
                         patientId: Option<string>, isFinal: bool, authored: string)
    : (r: QuestionnaireResponse)
    ensures r.resourceType == ResponseResourceType
    ensures r.questionnaire == SusQuestionnaireRef
    ensures r.status == StatusCompleted <==> isFinal
    ensures r.status == StatusInProgress <==> !isFinal
    ensures r.subject.reference == SubjectReference(patientId)
    ensures r.authored == authored
    ensures questionnaire.None? ==> r.item == []
    ensures questionnaire.Some? ==> r.item == AnsweredItems(questionnaire.value.item, answers)
  {
    var items := match questionnaire
                 case Some(q) => AnsweredItems(q.item, answers)
                 case None => [];
    QuestionnaireResponse(
      ResponseResourceType,
      if isFinal then StatusCompleted else StatusInProgress,
      SusQuestionnaireRef,
      Reference(SubjectReference(patientId)),
      authored,
      items)
  }

  /** Every index moved one place on: the positions of a list's tail within the list. */
  function Shifted(s: seq<nat>): (r: seq<nat>)
    ensures |r| == |s|
    ensures forall k :: 0 <= k < |s| ==> r[k] == s[k] + 1
  {
    if s == [] then [] else [s[0] + 1] + Shifted(s[1..])
  }

  /** The indices of the answered questions, in questionnaire order. */
  function AnsweredPositions(qs: seq<Question>, answers: Answers): (pos: seq<nat>)
    ensures forall k :: 0 <= k < |pos| ==> pos[k] < |qs|
  {
    if qs == [] then []
    else (if qs[0].linkId in answers then [0] else []) + Shifted(AnsweredPositions(qs[1..], answers))
  }

  /** Each item is the item of the question at the matching answered position. */
  lemma {:induction false} PositionsMatchItems(qs: seq<Question>, answers: Answers)
    ensures |AnsweredPositions(qs, answers)| == |AnsweredItems(qs, answers)|
    ensures forall k :: 0 <= k < |AnsweredPositions(qs, answers)| ==>
              qs[AnsweredPositions(qs, answers)[k]].linkId in answers
              && AnsweredItems(qs, answers)[k] == ItemFor(qs[AnsweredPositions(qs, answers)[k]], answers)
  {
    if qs != [] {
      PositionsMatchItems(qs[1..], answers);
      var rest := AnsweredPositions(qs[1..], answers);
      var tail := AnsweredItems(qs[1..], answers);
      var shifted := Shifted(rest);
      forall k | 0 <= k < |shifted|
        ensures qs[shifted[k]].linkId in answers
        ensures tail[k] == ItemFor(qs[shifted[k]], answers)
      {
        assert qs[1..][rest[k]] == qs[shifted[k]];
      }
      var pos := AnsweredPositions(qs, answers);
      var items := AnsweredItems(qs, answers);
      if qs[0].linkId in answers {
        assert pos == [0] + shifted;
        assert items == [ItemFor(qs[0], answers)] + tail;
        forall k | 1 <= k < |pos|
          ensures pos[k] == shifted[k - 1]
          ensures items[k] == tail[k - 1]
        {
          assert items[k] == ([ItemFor(qs[0], answers)] + tail)[k];
        }
      } else {
        assert pos == shifted;
        assert items == tail;
      }
    }
  }

  /** The answered positions are strictly increasing. */
  lemma {:induction false} PositionsIncrease(qs: seq<Question>, answers: Answers)
    ensures forall k, l :: 0 <= k < l < |AnsweredPositions(qs, answers)| ==>
              AnsweredPositions(qs, answers)[k] < AnsweredPositions(qs, answers)[l]
  {
    if qs != [] {
      PositionsIncrease(qs[1..], answers);
      var shifted := Shifted(AnsweredPositions(qs[1..], answers));
      var pos := AnsweredPositions(qs, answers);
      if qs[0].linkId in answers {
        assert pos == [0] + shifted;
        forall k | 1 <= k < |pos| ensures pos[k] == shifted[k - 1] && 0 < pos[k] {}
      }
    }
  }

  /** Every answered question's index is among the answered positions. */
  lemma {:induction false} PositionsComplete(qs: seq<Question>, answers: Answers)
    ensures forall i :: 0 <= i < |qs| && qs[i].linkId in answers ==> i in AnsweredPositions(qs, answers)
  {
    if qs != [] {
      PositionsComplete(qs[1..], answers);
      var rest := AnsweredPositions(qs[1..], answers);
      var shifted := Shifted(rest);
      var pos := AnsweredPositions(qs, answers);
      forall i | 1 <= i < |qs| && qs[i].linkId in answers
        ensures i in shifted
      {
        assert qs[1..][i - 1] == qs[i];
        var k :| 0 <= k < |rest| && rest[k] == i - 1;
        assert shifted[k] == i;
      }
    }
  }

  /**
   * The items are exactly the answered questions, in questionnaire order:
   * `pos` lists, increasing, the index of the question behind each item, and
   * every answered question's index is listed.
   */
  lemma AnsweredItemsInOrder(qs: seq<Question>, answers: Answers)
    returns (pos: seq<nat>)
    ensures |pos| == |AnsweredItems(qs, answers)|
    ensures forall k :: 0 <= k < |pos| ==>
              pos[k] < |qs| && qs[pos[k]].linkId in answers
              && AnsweredItems(qs, answers)[k] == ItemFor(qs[pos[k]], answers)
    ensures forall k, l :: 0 <= k < l < |pos| ==> pos[k] < pos[l]
    ensures forall i :: 0 <= i < |qs| && qs[i].linkId in answers ==> i in pos
  {
    pos := AnsweredPositions(qs, answers);
    PositionsMatchItems(qs, answers);
    PositionsIncrease(qs, answers);
    PositionsComplete(qs, answers);
  }

  /** The number of items is the number of questions that have an answer. */
  lemma AnsweredItemsCount(qs: seq<Question>, answers: Answers)
    ensures |AnsweredItems(qs, answers)| == |set i: nat | i < |qs| && qs[i].linkId in answers|
  {
    var pos := AnsweredItemsInOrder(qs, answers);
    var answered := set i: nat | i < |qs| && qs[i].linkId in answers;
    assert forall k, l :: 0 <= k < l < |pos| ==> pos[k] != pos[l];
    DistinctElementsCount(pos);
    var listed := set x: nat | x in pos;
    assert |listed| == |pos|;
    forall x | x in pos ensures x in answered {
      var k :| 0 <= k < |pos| && pos[k] == x;
    }
    assert answered == listed;
  }

  /** An answered question always shows up as an item carrying its answer. */
  lemma AnsweredQuestionHasItem(qs: seq<Question>, answers: Answers, i: nat)
    requires i < |qs| && qs[i].linkId in answers
    ensures ItemFor(qs[i], answers) in AnsweredItems(qs, answers)
  {
    var pos := AnsweredItemsInOrder(qs, answers);
    var k :| 0 <= k < |pos| && pos[k] == i;
    assert AnsweredItems(qs, answers)[k] == ItemFor(qs[i], answers);
  }

  /** An answer stored under a key that no question uses changes no item. */
  lemma {:induction false} UnaskedKeyIgnored(qs: seq<Question>, answers: Answers, key: string, value: int)
    requires forall i :: 0 <= i < |qs| ==> qs[i].linkId != key
    ensures AnsweredItems(qs, answers[key := value]) == AnsweredItems(qs, answers)
  {
    if qs != [] {
      assert qs[0].linkId != key;
      UnaskedKeyIgnored(qs[1..], answers, key, value);
    }
  }
}
