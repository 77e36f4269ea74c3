# SUS questionnaire client: response building and scoring

This project models the logic in `web-client/src/App.js`: the web client that has clinical staff fill in the
German System Usability Scale (SUS) questionnaire with sliders for one patient. The modelled parts are:

- **`createResponseResource`**: builds a FHIR R4 `QuestionnaireResponse` from the current answers. It walks the
  questionnaire's items in order. It emits one item (`linkId`, `text`, one `valueInteger` answer) for each question
  whose `linkId` has an answer, and drops the unanswered ones. `status` is `completed` for the submitted payload and
  `in-progress` for the live log. `resourceType` and `questionnaire` are fixed. `subject.reference` is
  `Patient/<id>`, where an absent id prints as `Patient/undefined`.
- **`handleSliderChange`**: makes a new answer map with one key overwritten, then rebuilds the live log from it.
- **`calculateSUS`**: returns `null` while the answer map has fewer than ten keys. Otherwise it loops over the
  questions and adds `v - 1` at odd 1-based positions and `5 - v` at even ones, then multiplies the sum by 2.5.
- **The two gates**: the submit button is enabled from ten answer keys on. The verdict "good usability" means a
  score of at least 68.

Modules:

- `Questionnaires` (`questionnaire.dfy`): the FHIR shapes and fixed codes.
- `ResponseBuilder` (`response_builder.dfy`): `createResponseResource`.
- `SusScore` (`sus_score.dfy`): `calculateSUS`. It is a method whose loop is proved against the specification
  function `Sus`, which is built on the running total `RawSum`.
- `AnswerForm` (`answer_form.dfy`): the slider update, the submit payload and the gates.

Four modelling choices follow the JavaScript:

- A questionnaire that is not loaded yet is `None`, and the builder then gives an empty item list.
- The result of `calculateSUS` is a `SusOutcome`, with these cases:
  - `NotReady` is `null`.
  - `NoQuestionnaire` is the TypeError raised when ten keys exist but no questionnaire is loaded.
  - `NotANumber` is the NaN that an unanswered linkId introduces (`undefined - 1`). Once it appears, it stays.
  - `Score(points)` is the score itself, as an exact `real`. For the slider's 1..5 values the JavaScript number is exact too.
- The timestamp (`authored`) and the patient id are parameters.
- Readiness is a raw key count, as in the code. It does not check that the keys are the questionnaire's linkIds.
  `KeyCountIsNotCompleteness` states what follows: ten keys that miss one linkId pass the gate and score NaN.
  `StrayKeyLeavesItems` shows that a new key no question uses adds one to the count the submit gate reads, while
  the response ignores it. The score lemmas therefore assume every linkId is answered on the 1..5 scale.

## Model

| member | source | states |
|---|---|---|
| `ResponseBuilder.ItemFor` | web-client/src/App.js:50-54 | an answered question's item carries the question's own linkId and text and exactly one answer whose `valueInteger` is the stored value |
| `ResponseBuilder.AnsweredItems` | web-client/src/App.js:47-58 | no more items than questions; every item's linkId is a key of the answers and its single answer is that key's value |
| `ResponseBuilder.SubjectReference` | web-client/src/App.js:64 | the subject reference is `Patient/` followed by the id, or `Patient/undefined` when there is no id |
| `ResponseBuilder.BuildResponse` | web-client/src/App.js:46-68 | `resourceType` is `QuestionnaireResponse` and `questionnaire` is `Questionnaire/german-sus-form`; status is `completed` iff final and `in-progress` iff not final, whatever the item count; the subject and `authored` come from the inputs; without a questionnaire the item list is empty, otherwise it is the answered items |
| `ResponseBuilder.PositionsMatchItems` | web-client/src/App.js:48-58 | the k-th item is the item of the question at the k-th answered position, and that question is answered |
| `ResponseBuilder.PositionsIncrease` | web-client/src/App.js:47-58 | the questions behind the items appear in strictly increasing questionnaire order |
| `ResponseBuilder.PositionsComplete` | web-client/src/App.js:49-56 | every question whose linkId is answered is among the positions behind the items |
| `ResponseBuilder.AnsweredItemsInOrder` | web-client/src/App.js:47-58 | the items are exactly the answered questions in questionnaire order: a strictly increasing index list matches each item to its question, and it lists every answered question |
| `ResponseBuilder.AnsweredItemsCount` | web-client/src/App.js:47-58 | the number of items equals the number of questions whose linkId has an answer |
| `ResponseBuilder.AnsweredQuestionHasItem` | web-client/src/App.js:49-55 | an answered question always appears among the items with its text and value |
| `ResponseBuilder.UnaskedKeyIgnored` | web-client/src/App.js:47-58 | an answer under a key that no question uses changes no item |
| `SusScore.RawSum` | web-client/src/App.js:91-103 | the running `totalScore` starts at 0 and, once any question's linkId has no answer, is NaN (None) whatever follows |
| `SusScore.Contribution` | web-client/src/App.js:96-102 | on the 1..5 scale a question earns 0..4 points; 4 exactly for its best answer (5 at odd, 1 at even positions), 0 exactly for its worst; a 3 earns 2 |
| `SusScore.Sus` | web-client/src/App.js:86-106 | not ready exactly when fewer than ten keys exist; a TypeError exactly when ten keys exist and no questionnaire is loaded; a score only when every question is answered |
| `SusScore.CalculateSus` | web-client/src/App.js:86-106 | the key-count gate followed by the accumulating loop yields exactly `Sus`: 2.5 times the polarity-alternating total, or NaN |
| `SusScore.RawSumDefinedIff` | web-client/src/App.js:92-103 | the running total is a number iff every question's linkId has an answer |
| `SusScore.RawSumBounds` | web-client/src/App.js:92-103 | with every answer in 1..5 the total is a number between 0 and 4 per question |
| `SusScore.RawSumMaxIff` | web-client/src/App.js:92-103 | the total is maximal (4 per question) iff every answer is its position's best one |
| `SusScore.RawSumMinIff` | web-client/src/App.js:92-103 | the total is 0 iff every answer is its position's worst one |
| `SusScore.RawSumMidpoint` | web-client/src/App.js:92-103 | all answers 3 give 2 points per question |
| `SusScore.ScoreInRange` | web-client/src/App.js:89-105 | ten questions answered in 1..5 with the gate passed give a score in 0..100 |
| `SusScore.MidpointScoresFifty` | web-client/src/App.js:92-105 | ten answers of 3 score 50 |
| `SusScore.BestAnswersScoreHundred` | web-client/src/App.js:92-105 | alternating 5, 1, 5, 1, ... scores 100 |
| `SusScore.WorstAnswersScoreZero` | web-client/src/App.js:92-105 | alternating 1, 5, 1, 5, ... scores 0 |
| `SusScore.GoodUsability` | web-client/src/App.js:182 | the verdict `calculateSUS(answers) >= 68`: a score is good iff it is at least 68; `null` (not ready) and NaN compare false, so they are never good |
| `SusScore.GoodUsabilityIff` | web-client/src/App.js:182 | the verdict is "good usability" iff the gate passed and the total is a number of at least 28 (a score of 70; 67.5 is the largest score below 68) |
| `SusScore.KeyCountIsNotCompleteness` | web-client/src/App.js:87-98 | with ten keys present, a question whose linkId is not among them makes the result NaN rather than not-ready |
| `AnswerForm.SetAnswer` | web-client/src/App.js:81 | the new map has the old keys plus `linkId`, `linkId` maps to the new value, and every other key keeps its value |
| `AnswerForm.SubmitEnabled` | web-client/src/App.js:171 | the submit button is enabled iff the answer object has at least ten keys (`Object.keys(answers).length < 10` disables it) |
| `AnswerForm.HandleSliderChange` | web-client/src/App.js:80-84 | the new answers are the old ones with one key overwritten; the live log built from them is `in-progress` |
| `AnswerForm.SubmitPayload` | web-client/src/App.js:111 | the submitted resource is `completed` and carries the same items and subject as the live log for the same answers |
| `AnswerForm.SetAnswerCount` | web-client/src/App.js:81 | a slider change adds one key when its question was unanswered and none otherwise |
| `AnswerForm.SubmitStaysEnabled` | web-client/src/App.js:171 | once the submit button is enabled, further slider changes keep it enabled |
| `AnswerForm.SubmitGateMatchesReadiness` | web-client/src/App.js:171 | the submit button is enabled exactly when the score is not "not ready" |
| `AnswerForm.CompleteAnswersEnableSubmit` | web-client/src/App.js:171 | answering all ten questions of a questionnaire with distinct linkIds enables submit |
| `AnswerForm.SliderChangeShowsAnswer` | web-client/src/App.js:80-83 | after a slider change, the live log holds an item with the new value for every question with that linkId |
| `AnswerForm.StrayKeyLeavesItems` | web-client/src/App.js:80-83 | a slider change under a key no question uses leaves the live log's items unchanged, yet a new such key adds one to the key count the submit gate reads |

## Left out

- Patient polling (`setInterval`/`clearInterval`) and every `axios` GET and POST (web-client/src/App.js:17-43, 73, 113): network I/O and timers. The submit payload is modelled; sending it is not.
- React state hooks, re-rendering, the JSX layout, the `ReactJson` log display and `window.location.reload`: UI.
- `new Date().toISOString()`: the timestamp is an opaque string parameter.
- `toLocaleDateString` date formatting: presentation only.
- `parseInt(value)`: the slider is taken to deliver an integer. The model does not restrict the value to 1..5, because neither `handleSliderChange` nor `calculateSUS` checks it.
- No range or extra-key validation: neither `handleSliderChange` nor `calculateSUS` checks values or keys, so the model has no error for an answer outside 1..5 or a key that is not a linkId.
- The displayed slider default (`answers[item.linkId] || 3`): presentation only. It never enters the answer map.
- The questionnaire `title` is not used by the core. A loaded questionnaire without an `item` list would throw in `createResponseResource`. The model always gives a loaded questionnaire an item list.
- JavaScript object-prototype keys: a linkId such as `constructor` reads as answered through `!== undefined` but is not counted by `Object.keys`. The model's answer map has no inherited keys.
- SusScore.GoodUsability: when no questionnaire is loaded, rendering would throw. The model's verdict is false in that case; the UI shows the verdict only after a questionnaire was loaded and submitted.
