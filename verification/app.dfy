/** The `App` component's state and the transitions that change it: the
    one-time model load, typing into the message field, and `sendMessage`
    (src/App.tsx, lines 17-104). Rendering is not modelled; submissions are
    taken one at a time, each running to completion before the next. */
module App {
  import opened Wrappers
  import Decimal
  import opened Classifier
  import opened Transcript

  /** What the awaited `classify` call produces: predictions, or a rejection. */
  datatype ClassifyReply = Predictions(preds: seq<Prediction>) | Rejected

  /** Something that happens to the component. `Submitted` carries what the
      classifier will answer for the submitted text. */
  datatype Event = ModelLoaded | Typed(text: string) | Submitted(reply: ClassifyReply)

  /** The component's state; `input` is the value of the form's message field. */
  datatype AppState = AppState(
    transcript: Transcript,
    toxicity: Toxicity,
    isClassifying: bool,
    hasLoaded: bool,
    input: string)

  /** The state a submission leaves, and why it stopped early, if it did. */
  datatype Completion = Completion(state: AppState, fault: Option<Fault>)

  const NoToxicityText: string := "No toxicity detected"

  /** The state's invariant: a valid transcript and a verdict whose toxic
      branch has evidence. */
  ghost predicate Inv(s: AppState) {
    Valid(s.transcript) && WellFormed(s.toxicity)
  }

  /** The state on mount: seed transcript, model not loaded, not classifying. */
  function Init(): (s: AppState)
    ensures Inv(s)
    ensures !s.hasLoaded && !s.isClassifying && s.input == ""
    ensures s.transcript == Initial() && s.toxicity == Toxicity(false, [])
    ensures |s.transcript.messages| == 3 && s.transcript.count == 3 && s.transcript.count1 == 4
  {
    AppState(Initial(), Toxicity(false, []), false, false, "")
  }

  /** The bot's answer: the first evidence label and its percent when toxic,
      the fixed acknowledgement otherwise. Reading `labels[0]` needs the
      verdict to be well formed. */
  function BotReply(t: Toxicity): (reply: string)
    requires WellFormed(t)
    ensures !t.isToxic ==> reply == NoToxicityText
    ensures t.isToxic ==>
      && |reply| > |t.labels[0].name| + 2
      && reply[..|t.labels[0].name|] == t.labels[0].name
      && reply[|t.labels[0].name|] == ' '
      && reply[|t.labels[0].name| + 1..] == ProbText(t.labels[0])
  {
    if t.isToxic then t.labels[0].name + " " + ProbText(t.labels[0]) else NoToxicityText
  }

  /** A toxic reply can be split back into its label and its percent. */
  lemma ToxicReplyParses(t: Toxicity)
    requires WellFormed(t) && t.isToxic
    ensures var reply, e := BotReply(t), t.labels[0];
      && |reply| >= |e.name| + 3
      && reply[..|e.name|] == e.name
      && reply[|e.name|] == ' '
      && reply[|reply| - 1] == '%'
      && Decimal.IsCanonical(reply[|e.name| + 1 .. |reply| - 1])
      && Decimal.Value(reply[|e.name| + 1 .. |reply| - 1]) == e.percent
  {
    var reply, e := BotReply(t), t.labels[0];
    var digits := Decimal.FromNat(e.percent);
    assert reply == e.name + " " + digits + "%";
    assert reply[|e.name| + 1 .. |reply| - 1] == digits;
    Decimal.ValueOfFromNat(e.percent);
  }

  /** The reply is the acknowledgement exactly when the verdict is not toxic. */
  lemma ReplyShowsBranch(t: Toxicity)
    requires WellFormed(t)
    ensures BotReply(t) == NoToxicityText <==> !t.isToxic
  {
    if t.isToxic {
      ToxicReplyParses(t);
      assert BotReply(t)[|BotReply(t)| - 1] != NoToxicityText[|NoToxicityText| - 1];
    }
  }

  /** Marks the model as loaded, which makes the message form available. */
  function LoadModel(s: AppState): (r: AppState)
    ensures r.hasLoaded
    ensures r.transcript == s.transcript && r.input == s.input && r.isClassifying == s.isClassifying
    ensures r.toxicity == s.toxicity
  {
    s.(hasLoaded := true)
  }

  /** The state while `classify` is pending: the busy flag is set and nothing
      else has changed yet. */
  function StartClassifying(s: AppState): (busy: AppState)
    ensures busy.isClassifying
    ensures busy.(isClassifying := s.isClassifying) == s
  {
    s.(isClassifying := true)
  }

  /** One submission of the message field's value: classify it, derive the
      verdict, append the guest's message and the bot's reply, and clear the
      field only when the message is not toxic. A rejected `classify` leaves
      the busy flag set; a missing prediction or result stops the submission
      after the flag is cleared. */
  function SendMessage(s: AppState, reply: ClassifyReply): (c: Completion)
    ensures c.state.hasLoaded == s.hasLoaded
    ensures c.state.isClassifying <==> reply.Rejected?
    ensures c.fault.None? <==> reply.Predictions? && DeriveToxicity(reply.preds).Success?
    ensures reply.Rejected? <==> c.fault == Some(ClassifyRejected)
    ensures c.fault.Some? ==>
      c.state.transcript == s.transcript && c.state.input == s.input && c.state.toxicity == s.toxicity
    ensures c.fault.None? ==> var t, n := c.state.toxicity, |s.transcript.messages|;
      && Success(t) == DeriveToxicity(reply.preds)
      && |c.state.transcript.messages| == n + 2
      && c.state.transcript.messages[..n] == s.transcript.messages
      && c.state.transcript.messages[n] == Message(s.transcript.count + 1, false, s.input)
      && c.state.transcript.messages[n + 1] == Message(s.transcript.count1 + 1, true, BotReply(t))
      && c.state.input == (if t.isToxic then s.input else "")
      && c.state.transcript.count == s.transcript.count + 2
      && c.state.transcript.count1 == s.transcript.count1 + 2
    ensures Inv(s) ==> Inv(c.state)
    ensures Inv(s) && c.fault.None? ==> var ms, n := c.state.transcript.messages, |s.transcript.messages|;
      && ms[n + 1].id == ms[n].id + 1
      && forall i | 0 <= i < n :: ms[i].id < ms[n].id
  {
    var msg := s.input;
    var busy := StartClassifying(s);
    match reply
    case Rejected => Completion(busy, Some(ClassifyRejected))
    case Predictions(preds) =>
      var idle := busy.(isClassifying := false);
      match DeriveToxicity(preds)
      case Failure(f) => Completion(idle, Some(f))
      case Success(t) =>
        var transcript := Append(idle.transcript, msg, BotReply(t));
        var input := if t.isToxic then idle.input else "";
        Completion(idle.(toxicity := t, transcript := transcript, input := input), None)
  }

  /** Applies one event. The form, with its message field and its submit
      handler, is rendered only once the model has loaded, so before that
      neither typing nor submitting has any effect. */
  function Next(s: AppState, e: Event): (r: AppState)
    ensures !s.hasLoaded && e != ModelLoaded ==> r == s
    ensures r.hasLoaded <==> s.hasLoaded || e == ModelLoaded
    ensures e.Typed? && s.hasLoaded ==> r.input == e.text && r.transcript == s.transcript
    ensures Inv(s) ==> Inv(r)
  {
    match e
    case ModelLoaded => LoadModel(s)
    case Typed(text) => if s.hasLoaded then s.(input := text) else s
    case Submitted(reply) => if s.hasLoaded then SendMessage(s, reply).state else s
  }

  /** Applies a sequence of events in order. */
  function Run(s: AppState, events: seq<Event>): AppState
    decreases |events|
  {
    if |events| == 0 then s else Run(Next(s, events[0]), events[1..])
  }

  /** Every reachable state satisfies the invariant. */
  lemma {:induction false} RunPreservesInv(s: AppState, events: seq<Event>)
    requires Inv(s)
    ensures Inv(Run(s, events))
    decreases |events|
  {
    if |events| > 0 {
      RunPreservesInv(Next(s, events[0]), events[1..]);
    }
  }

  /** Whatever happens after mount, all message ids in the transcript are
      pairwise distinct. */
  lemma IdsStayUnique(events: seq<Event>)
    ensures var ms := Run(Init(), events).transcript.messages;
      forall i, j | 0 <= i < |ms| && 0 <= j < |ms| && i != j :: ms[i].id != ms[j].id
  {
    RunPreservesInv(Init(), events);
    IdsDistinct(Run(Init(), events).transcript);
  }

  /** The transcript only grows: earlier messages remain an unchanged prefix. */
  lemma {:induction false} RunAppendOnly(s: AppState, events: seq<Event>)
    ensures var ms := Run(s, events).transcript.messages;
      |s.transcript.messages| <= |ms| && ms[..|s.transcript.messages|] == s.transcript.messages
    decreases |events|
  {
    if |events| > 0 {
      var s' := Next(s, events[0]);
      RunAppendOnly(s', events[1..]);
      var n, n' := |s.transcript.messages|, |s'.transcript.messages|;
      var ms := Run(s', events[1..]).transcript.messages;
      assert n <= n' && s'.transcript.messages[..n] == s.transcript.messages;
      assert ms[..n] == ms[..n'][..n];
    }
  }

  /** The model is loaded exactly when a load event has happened. */
  lemma {:induction false} LoadedIffLoadEvent(s: AppState, events: seq<Event>)
    ensures Run(s, events).hasLoaded <==> s.hasLoaded || ModelLoaded in events
    decreases |events|
  {
    if |events| > 0 {
      LoadedIffLoadEvent(Next(s, events[0]), events[1..]);
      assert events == [events[0]] + events[1..];
    }
  }

  /** Until the model has loaded, the message field stays empty. */
  lemma {:induction false} InputEmptyUntilLoad(s: AppState, events: seq<Event>)
    requires !s.hasLoaded && s.input == ""
    requires ModelLoaded !in events
    ensures Run(s, events).input == ""
    decreases |events|
  {
    if |events| > 0 {
      assert events[0] != ModelLoaded && ModelLoaded !in events[1..];
      InputEmptyUntilLoad(Next(s, events[0]), events[1..]);
    }
  }

  /** Before the model has loaded, no submission can change the transcript. */
  lemma {:induction false} NothingSentBeforeLoad(s: AppState, events: seq<Event>)
    requires !s.hasLoaded && ModelLoaded !in events
    ensures Run(s, events).transcript == s.transcript
    decreases |events|
  {
    if |events| > 0 {
      assert events[0] != ModelLoaded && ModelLoaded !in events[1..];
      NothingSentBeforeLoad(Next(s, events[0]), events[1..]);
    }
  }

  /** In the toxic branch the bot names the first matching prediction and its
      percent. */
  lemma ToxicReplyNamesFirstMatch(s: AppState, preds: seq<Prediction>)
    requires Inv(s)
    requires SendMessage(s, Predictions(preds)).fault.None?
    requires SendMessage(s, Predictions(preds)).state.toxicity.isToxic
    ensures AllHaveResult(preds)
    ensures exists j | 0 <= j < |preds| ::
      && Matches(preds[j])
      && (forall i | 0 <= i < j :: !Matches(preds[i]))
      && Last(SendMessage(s, Predictions(preds)).state.transcript.messages).msg
         == preds[j].name + " " + Decimal.FromNat(preds[j].results[0].percent) + "%"
  {
    var t := SendMessage(s, Predictions(preds)).state.toxicity;
    var j := FirstLabelIsFirstMatch(preds);
    assert t.labels[0] == EvidenceOf(preds[j]);
  }

  function Last<T>(xs: seq<T>): T
    requires |xs| > 0
  {
    xs[|xs| - 1]
  }

  /** Seven labels in the classifier's order, each with a single result. */
  function SamplePredictions(m: seq<Option<bool>>, p: seq<nat>): (preds: seq<Prediction>)
    requires |m| == 7 && |p| == 7
    ensures |preds| == 7 && AllHaveResult(preds)
  {
    [ Prediction("identity_attack", [ClassResult(m[0], p[0])]),
      Prediction("insult", [ClassResult(m[1], p[1])]),
      Prediction("obscene", [ClassResult(m[2], p[2])]),
      Prediction("severe_toxicity", [ClassResult(m[3], p[3])]),
      Prediction("sexual_explicit", [ClassResult(m[4], p[4])]),
      Prediction("threat", [ClassResult(m[5], p[5])]),
      Prediction("toxicity", [ClassResult(m[6], p[6])]) ]
  }

  /** Only the summary label matches, at 97 percent. */
  lemma ToxicExampleVerdict()
    ensures var preds := SamplePredictions([Some(false), Some(false), Some(false), None, Some(false), Some(false), Some(true)],
                                           [1, 2, 3, 4, 5, 6, 97]);
      DeriveToxicity(preds) == Success(Toxicity(true, [Evidence("toxicity", 97)]))
  {
    var preds := SamplePredictions([Some(false), Some(false), Some(false), None, Some(false), Some(false), Some(true)],
                                   [1, 2, 3, 4, 5, 6, 97]);
    var front := preds[..6];
    assert forall i | 0 <= i < 6 :: !Matches(front[i]);
    assert CollectLabels(front) == [] by {
      if |CollectLabels(front)| > 0 {
        assert CollectLabels(front)[0] in CollectLabels(front);
      }
    }
    assert preds[..|preds| - 1] == front;
    assert Matches(preds[6]) && EvidenceOf(preds[6]) == Evidence("toxicity", 97);
    assert CollectLabels(preds) == [Evidence("toxicity", 97)];
    assert FirstMissing(preds) == None;
  }

  /** A message where only the summary label matches, at 97 percent, gets the
      reply "toxicity 97%" and stays in the message field. */
  lemma ToxicExample()
    ensures var s := LoadModel(Init()).(input := "I hate you");
      var preds := SamplePredictions([Some(false), Some(false), Some(false), None, Some(false), Some(false), Some(true)],
                                     [1, 2, 3, 4, 5, 6, 97]);
      var c := SendMessage(s, Predictions(preds));
      && c.fault == None
      && c.state.transcript.messages[3..] == [Message(4, false, "I hate you"), Message(5, true, "toxicity 97%")]
      && c.state.input == "I hate you"
  {
    ToxicExampleVerdict();
    assert Decimal.FromNat(97) == "97";
    assert BotReply(Toxicity(true, [Evidence("toxicity", 97)])) == "toxicity 97%";
  }

  /** A message with no matching label gets the acknowledgement and the
      message field is cleared. */
  lemma CleanExample()
    ensures var s := LoadModel(Init()).(input := "Hello");
      var preds := SamplePredictions([Some(false), Some(false), Some(false), Some(false), Some(false), Some(false), Some(false)],
                                     [1, 2, 3, 4, 5, 6, 7]);
      var c := SendMessage(s, Predictions(preds));
      && c.fault == None
      && c.state.toxicity == Toxicity(false, [])
      && c.state.transcript.messages[3..] == [Message(4, false, "Hello"), Message(5, true, NoToxicityText)]
      && c.state.input == ""
  {
  }
}
