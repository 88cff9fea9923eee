/** The toxicity verdict that `sendMessage` derives from the classifier's
    per-label predictions (src/App.tsx, lines 67-81). The classifier itself is
    not modelled: its output arrives as a value of type `seq<Prediction>`. */
module Classifier {
  import opened Wrappers
  import Decimal

  /** One entry of a prediction's `results` array, for one input string.
      `matched` (the source's `match`) is `null` when the classifier cannot decide; `percent` is the
      already-rounded positive-class probability times 100. */
  datatype ClassResult = ClassResult(matched: Option<bool>, percent: nat)

  /** The classifier's verdict for one label (`name` is the source's `label`),
      with one result per input string. */
  datatype Prediction = Prediction(name: string, results: seq<ClassResult>)

  /** One entry of the `labels` list: a matching label and its confidence. */
  datatype Evidence = Evidence(name: string, percent: nat)

  /** The value stored in the `toxicity` state. */
  datatype Toxicity = Toxicity(isToxic: bool, labels: seq<Evidence>)

  /** Why a submission stops before the transcript is updated: the awaited
      `classify` call rejects, `predictions[6]` is undefined, or some
      `results[0]` that is read is undefined (a TypeError in the source). */
  datatype Fault = ClassifyRejected | SummaryMissing | NoResult(index: nat)

  /** The position of the prediction whose match decides toxicity. */
  const SummaryIndex: nat := 6

  /** JavaScript truthiness of a `boolean | null` match flag. */
  predicate Truthy(m: Option<bool>): (b: bool)
    ensures b <==> m != None && m != Some(false)
  {
    match m
    case None => false
    case Some(v) => v
  }

  predicate HasResult(p: Prediction) {
    |p.results| > 0
  }

  predicate AllHaveResult(preds: seq<Prediction>) {
    forall i | 0 <= i < |preds| :: HasResult(preds[i])
  }

  /** Whether the first result of `p` has a truthy match. */
  predicate Matches(p: Prediction)
    requires HasResult(p)
  {
    Truthy(p.results[0].matched)
  }

  function EvidenceOf(p: Prediction): Evidence
    requires HasResult(p)
  {
    Evidence(p.name, p.results[0].percent)
  }

  /** The `prob` text of an evidence entry: its percent followed by `%`. */
  function ProbText(e: Evidence): (r: string)
    ensures |r| >= 2 && r[|r| - 1] == '%'
    ensures Decimal.IsCanonical(r[..|r| - 1]) && Decimal.Value(r[..|r| - 1]) == e.percent
  {
    var digits := Decimal.FromNat(e.percent);
    Decimal.ValueOfFromNat(e.percent);
    assert (digits + "%")[..|digits|] == digits;
    digits + "%"
  }

  /** A verdict whose toxic branch can read `labels[0]`. */
  predicate WellFormed(t: Toxicity) {
    t.isToxic ==> |t.labels| > 0
  }

  /** The index of the first prediction with an empty `results` array, which is
      where the `forEach` walk over all predictions throws. */
  function FirstMissing(preds: seq<Prediction>): (r: Option<nat>)
    ensures r.None? <==> AllHaveResult(preds)
    ensures r.Some? ==> r.value < |preds| && !HasResult(preds[r.value])
    ensures r.Some? ==> forall i | 0 <= i < r.value :: HasResult(preds[i])
    decreases |preds|
  {
    if |preds| == 0 then None
    else
      var front := preds[..|preds| - 1];
      match FirstMissing(front)
      case Some(i) => Some(i)
      case None => if HasResult(preds[|preds| - 1]) then None else Some(|preds| - 1)
  }

  /** The evidence list built by the `forEach` loop: every prediction whose
      first result matches, in order, with its own label and percent. */
  function CollectLabels(preds: seq<Prediction>): (labels: seq<Evidence>)
    requires AllHaveResult(preds)
    ensures |labels| <= |preds|
    ensures forall e | e in labels :: exists i | 0 <= i < |preds| :: Matches(preds[i]) && EvidenceOf(preds[i]) == e
    decreases |preds|
  {
    if |preds| == 0 then []
    else
      var last := preds[|preds| - 1];
      CollectLabels(preds[..|preds| - 1]) + (if Matches(last) then [EvidenceOf(last)] else [])
  }

  /** The positions of the matching predictions, in increasing order: an
      independent description of which predictions the evidence list keeps. */
  function MatchIndices(preds: seq<Prediction>): (idx: seq<nat>)
    requires AllHaveResult(preds)
    ensures forall k | 0 <= k < |idx| :: idx[k] < |preds| && Matches(preds[idx[k]])
    ensures forall a, b | 0 <= a < b < |idx| :: idx[a] < idx[b]
    ensures forall i | 0 <= i < |preds| && Matches(preds[i]) :: i in idx
    decreases |preds|
  {
    if |preds| == 0 then []
    else
      var n := |preds| - 1;
      MatchIndices(preds[..n]) + (if Matches(preds[n]) then [n] else [])
  }

  /** The evidence list is exactly the matching predictions, in their order. */
  lemma {:induction false} CollectLabelsIsSelection(preds: seq<Prediction>)
    requires AllHaveResult(preds)
    ensures |CollectLabels(preds)| == |MatchIndices(preds)|
    ensures forall k | 0 <= k < |CollectLabels(preds)| ::
      CollectLabels(preds)[k] == EvidenceOf(preds[MatchIndices(preds)[k]])
    decreases |preds|
  {
    if |preds| > 0 {
      var n := |preds| - 1;
      var front := preds[..n];
      CollectLabelsIsSelection(front);
      forall k | 0 <= k < |MatchIndices(front)|
        ensures front[MatchIndices(front)[k]] == preds[MatchIndices(front)[k]]
      {
      }
    }
  }

  /** A matching prediction at any position contributes its evidence. */
  lemma MatchCollected(preds: seq<Prediction>, i: nat)
    requires AllHaveResult(preds)
    requires i < |preds| && Matches(preds[i])
    ensures EvidenceOf(preds[i]) in CollectLabels(preds)
  {
    CollectLabelsIsSelection(preds);
    var idx := MatchIndices(preds);
    var k :| 0 <= k < |idx| && idx[k] == i;
    assert CollectLabels(preds)[k] == EvidenceOf(preds[i]);
  }

  /** The first evidence entry belongs to the first matching prediction,
      whose position is returned. */
  lemma FirstLabelIsFirstMatch(preds: seq<Prediction>) returns (j: nat)
    requires AllHaveResult(preds)
    requires |CollectLabels(preds)| > 0
    ensures j < |preds| && Matches(preds[j])
    ensures forall i | 0 <= i < j :: !Matches(preds[i])
    ensures CollectLabels(preds)[0] == EvidenceOf(preds[j])
  {
    CollectLabelsIsSelection(preds);
    j := MatchIndices(preds)[0];
  }

  /** Derives the verdict from the predictions as `sendMessage` does: the match
      at index 6 decides toxicity, and only the toxic branch walks all
      predictions to collect the evidence. */
  function DeriveToxicity(preds: seq<Prediction>): (r: Result<Toxicity, Fault>)
    ensures r.Success? <==>
      && |preds| > SummaryIndex
      && HasResult(preds[SummaryIndex])
      && (Matches(preds[SummaryIndex]) ==> AllHaveResult(preds))
    ensures r.Success? ==> (r.value.isToxic <==> Truthy(preds[SummaryIndex].results[0].matched))
    ensures r.Success? ==> WellFormed(r.value)
    ensures r.Success? && r.value.isToxic ==> AllHaveResult(preds) && r.value.labels == CollectLabels(preds)
    ensures r.Success? && !r.value.isToxic ==> r.value.labels == []
    ensures r.Failure? ==> r.error != ClassifyRejected
    ensures r.Failure? ==> (r.error == SummaryMissing <==> |preds| <= SummaryIndex)
    ensures r.Failure? && r.error.NoResult? ==>
      && r.error.index < |preds|
      && !HasResult(preds[r.error.index])
      && (r.error.index == SummaryIndex <==> !HasResult(preds[SummaryIndex]))
      && (r.error.index != SummaryIndex ==> forall i | 0 <= i < r.error.index :: HasResult(preds[i]))
  {
    if |preds| <= SummaryIndex then Failure(SummaryMissing)
    else if !HasResult(preds[SummaryIndex]) then Failure(NoResult(SummaryIndex))
    else if !Matches(preds[SummaryIndex]) then Success(Toxicity(false, []))
    else
      match FirstMissing(preds)
      case Some(i) => Failure(NoResult(i))
      case None =>
        MatchCollected(preds, SummaryIndex);
        Success(Toxicity(true, CollectLabels(preds)))
  }
}
