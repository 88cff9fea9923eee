# Toxicity-checked chat: a Dafny model of `sendMessage`

This project models the message pipeline of a small React chat component. The
component sends each message the guest types to a pretrained multi-label
toxicity classifier. It then appends the guest's message and an automated
reply to the conversation. When the message is toxic, the reply names the
first matching label, in the classifier's fixed label order, with its percent.
This is not necessarily the label with the highest percent. Otherwise the reply
says "No toxicity detected".

The model is written as pure functions over immutable data, in five modules:

- `Wrappers`: `Option` (JavaScript's `null`) and `Result`.
- `Decimal`: the decimal text of a whole number, together with the parser
  that inverts it. Below 10^21 this is the text string concatenation gives a
  number. That range includes every percent the component renders, which is
  always between 0 and 100.
- `Classifier`: the classifier's output (`Prediction`, `ClassResult`) and the
  verdict `sendMessage` derives from it. The match at index 6 decides
  toxicity. The evidence list keeps every prediction whose first result has a
  truthy match, in order. A missing prediction or result is a `Fault`, just
  as it is a `TypeError` in the component.
- `Transcript`: the message list and the two id counters `count` and `count1`.
  It holds the append rule and the invariant that keeps ids fresh, unique and
  consecutive.
- `App`: the component's state (`transcript`, `toxicity`, `isClassifying`,
  `hasLoaded`, and the form's `input` field), the model-load and submission
  transitions, and `Run`, which applies a sequence of events.

The classifier itself is not modelled. Its answer to a submission is part of
the `Submitted` event: either a prediction list or a rejection. Submissions run
one at a time.

The model follows the code as written, including these gaps:

- The summary label is the fixed position 6 (`predictions[6]`), not a lookup
  by name.
- Nothing catches failures. If `classify` rejects, the busy flag
  `isClassifying` stays set, because the line that clears it is never reached.
- If the prediction list is too short, or a `results[0]` that is read is
  missing, the busy flag has already been cleared. The transcript, verdict and
  input field are then left as they were.
- Empty input is not rejected. It is classified like any other text.

## Model

| member | source | states |
|---|---|---|
| Decimal.FromNat | src/App.tsx:77 | the rendered percent is a canonical decimal numeral: non-empty, digits only, no leading zero |
| Decimal.ValueOfFromNat | src/App.tsx:77 | reading back the rendered percent gives the original number |
| Decimal.FromNatOfValue | src/App.tsx:77 | every canonical numeral is the rendering of its own value, so rendering is a bijection onto canonical numerals |
| Classifier.Truthy | src/App.tsx:70-74 | a match flag, which is a boolean or null, is truthy exactly when it is neither `null` nor `false` |
| Classifier.ProbText | src/App.tsx:77 | the `prob` string ends in `%`, and what precedes it is the canonical decimal numeral of the entry's percent |
| Classifier.FirstMissing | src/App.tsx:73-74 | finds the first prediction whose `results[0]` is undefined, which is where the `forEach` walk throws; finds none exactly when every prediction has a result |
| Classifier.CollectLabels | src/App.tsx:71-80 | the evidence list is no longer than the predictions, and each entry is the label and percent of some prediction whose first result matches |
| Classifier.MatchIndices | src/App.tsx:73-74 | lists, in strictly increasing order, exactly the positions whose first result has a truthy match |
| Classifier.CollectLabelsIsSelection | src/App.tsx:71-80 | entry k of the evidence list is the label and percent of the k-th matching prediction, so the list holds exactly the matching predictions in their original order |
| Classifier.MatchCollected | src/App.tsx:73-79 | every matching prediction has its evidence in the list |
| Classifier.FirstLabelIsFirstMatch | src/App.tsx:71-88 | returns the position of the first prediction, in classifier order, whose result matches, and `labels[0]` is that prediction's label and percent |
| Classifier.DeriveToxicity | src/App.tsx:67-81 | succeeds exactly when prediction 6 and its first result exist and, if it matches, every prediction has a result; `isToxic` is the truthiness of prediction 6's match (null and false are not toxic); a toxic verdict has non-empty evidence, so `labels[0]` is defined; a non-toxic verdict has none; a failure is never a classifier rejection, and names the undefined access the code reaches first: index 6's result when that is missing, otherwise the first prediction without a result |
| Transcript.Initial | src/App.tsx:19-39 | the three seed messages with counters 3 and 4 form a valid transcript |
| Transcript.Append | src/App.tsx:82-101 | appends exactly a guest message and then a bot message with the given texts, leaves earlier messages as an unchanged prefix, and raises both counters by 2; it keeps a valid transcript valid, and the two new ids are consecutive and above every earlier id |
| Transcript.IdsDistinct | src/App.tsx:84-101 | in a valid transcript no two messages share an id |
| App.Init | src/App.tsx:19-39 | on mount the model is not loaded, nothing is being classified, the message field is empty, the verdict is not toxic, the seed transcript with counters 3 and 4 is present, and the state invariant holds |
| App.LoadModel | src/App.tsx:43-53 | loading makes the form available and changes neither the transcript, nor the input, nor the busy flag, nor the stored verdict |
| App.BotReply | src/App.tsx:88-98 | a non-toxic verdict gets exactly "No toxicity detected"; a toxic one gets `labels[0]`'s label, a space, and that entry's `prob` string |
| App.ToxicReplyParses | src/App.tsx:77-88 | a toxic reply splits back into the first evidence label, a space, the canonical decimal percent and a `%` sign |
| App.ReplyShowsBranch | src/App.tsx:88-98 | the reply is "No toxicity detected" exactly when the verdict is not toxic |
| App.StartClassifying | src/App.tsx:63-64 | while `classify` is pending, the busy flag is set and nothing else in the state has changed |
| App.SendMessage | src/App.tsx:56-104 | the busy flag stays set, and the fault is a classifier rejection, exactly when `classify` rejects; on any fault the transcript, input and verdict are unchanged; on success it appends the guest message with the field's text and `count + 1`, then the bot reply with `count1 + 1`, raises both counters by 2, clears the field only for a non-toxic verdict, stores the derived verdict, preserves the invariant, and gives fresh consecutive ids |
| App.Next | src/App.tsx:169-174 | before the model has loaded, the form is not rendered, so typing and submitting change nothing; only a load event sets `hasLoaded`; once loaded, typing sets the message field and leaves the transcript alone; every event preserves the state invariant |
| App.RunPreservesInv | src/App.tsx:38-104 | every sequence of events preserves the state invariant |
| App.IdsStayUnique | src/App.tsx:19-101 | after any sequence of events from mount, the transcript's ids are pairwise distinct |
| App.RunAppendOnly | src/App.tsx:82-99 | the transcript only grows, and the earlier messages stay an unchanged prefix |
| App.LoadedIffLoadEvent | src/App.tsx:34-53 | `hasLoaded` holds exactly when it held before or a load has completed |
| App.InputEmptyUntilLoad | src/App.tsx:169-171 | the message field stays empty until the model has loaded, because the field does not exist before then |
| App.NothingSentBeforeLoad | src/App.tsx:169-174 | while the model has not loaded, no event changes the transcript |
| App.ToxicReplyNamesFirstMatch | src/App.tsx:68-88 | in the toxic branch every prediction has a result, and the bot's text is the label and percent of the first matching prediction |
| App.ToxicExampleVerdict | src/App.tsx:67-81 | when only the summary label matches, at 97, the verdict is toxic with the single evidence entry ("toxicity", 97) |
| App.ToxicExample | src/App.tsx:82-92 | that message gets the reply "toxicity 97%" with ids 4 and 5, and the message field keeps its text |
| App.CleanExample | src/App.tsx:93-103 | a message with no matching label gets "No toxicity detected" with ids 4 and 5, and the message field is cleared |

## Left out

- Rendering: the JSX, the card and avatar markup and the styling (src/App.tsx:106-179). It only displays the state. The model keeps just its one behavioural rule: the form exists only once `hasLoaded` holds. Before that, neither typing into the field nor submitting has any effect.
- The TensorFlow.js `load` and `classify` calls. They are foreign asynchronous library calls. `ModelLoaded` stands for `load` completing. A `Submitted` event carries the answer of `classify`. The threshold 0.9 passed to `load` only shapes that answer.
- `Math.round(probabilities[1] * 100)` is floating-point arithmetic. Each result carries its rounded percent as a whole number, so the `NaN` case of a short `probabilities` array is not represented. In the source that number is always between 0 and 100. The model allows any natural number, but it renders numbers only as plain digits. JavaScript's exponent notation, used from 10^21 up, is not modelled.
- Overlapping submissions and React's stale closures over `count` and `messages` are not modelled. Submissions are sequential, and each one runs to completion before the next event.
- JavaScript numbers are 64-bit floats. The id counters are unbounded integers here, so the loss of precision above 2^53 is not modelled.
- `console.log` output is not modelled. The `toxicity` state is written but never read; the model keeps it as a field of the state.
- There is no error handling, input validation or retry in the component, and the model adds none.
