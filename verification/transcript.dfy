/** The message list together with the two id counters `count` and `count1`
    that `sendMessage` uses to number new messages (src/App.tsx, lines 19-23,
    38-39 and 82-101). */
module Transcript {

  /** A chat message; `bot` tells the automated replies from the guest's. */
  datatype Message = Message(id: int, bot: bool, msg: string)

  /** The `messages` state and the two counter states. */
  datatype Transcript = Transcript(messages: seq<Message>, count: int, count1: int)

  /** Ids strictly increase from each message to the next. */
  ghost predicate IdsIncreasing(ms: seq<Message>) {
    forall i | 0 < i < |ms| :: ms[i - 1].id < ms[i].id
  }

  /** The counters stay one apart and non-negative, and every id in the list is positive and
      at most `count`, so `count + 1` is always unused. */
  ghost predicate Valid(t: Transcript) {
    && 0 <= t.count && t.count1 == t.count + 1
    && IdsIncreasing(t.messages)
    && forall i | 0 <= i < |t.messages| :: 1 <= t.messages[i].id <= t.count
  }

  /** The seed conversation and the counters' starting values. */
  function Initial(): (t: Transcript)
    ensures Valid(t) && |t.messages| == 3
  {
    Transcript(
      [Message(1, true, "Hello!"), Message(2, false, "What's up?"), Message(3, true, "Hello!")],
      3, 4)
  }

  /** Appends the guest's message and the bot's reply in one update. Each id
      comes from a pre-increment (`++count`, `++count1`), and each counter is
      then stored as its incremented local plus one (`setCount(count + 1)`). */
  function Append(t: Transcript, userText: string, botText: string): (r: Transcript)
    ensures |r.messages| == |t.messages| + 2
    ensures r.messages[..|t.messages|] == t.messages
    ensures !r.messages[|t.messages|].bot && r.messages[|t.messages|].msg == userText
    ensures r.messages[|t.messages| + 1].bot && r.messages[|t.messages| + 1].msg == botText
    ensures r.count == t.count + 2 && r.count1 == t.count1 + 2
    ensures Valid(t) ==> Valid(r)
    ensures Valid(t) ==>
      && r.messages[|t.messages| + 1].id == r.messages[|t.messages|].id + 1
      && forall i | 0 <= i < |t.messages| :: t.messages[i].id < r.messages[|t.messages|].id
  {
    var count := t.count + 1;
    var count1 := t.count1 + 1;
    var user := Message(count, false, userText);
    var bot := Message(count1, true, botText);
    var messages := t.messages + [user, bot];
    assert forall i | 0 <= i < |t.messages| :: messages[i] == t.messages[i];
    Transcript(messages, count + 1, count1 + 1)
  }

  /** Strictly increasing neighbours make every pair of ids ordered. */
  lemma {:induction false} IncreasingIsStrict(ms: seq<Message>, i: nat, j: nat)
    requires IdsIncreasing(ms)
    requires i < j < |ms|
    ensures ms[i].id < ms[j].id
    decreases j - i
  {
    if i + 1 < j {
      IncreasingIsStrict(ms, i + 1, j);
    }
  }

  /** In a valid transcript no two messages share an id. */
  lemma IdsDistinct(t: Transcript)
    requires Valid(t)
    ensures forall i, j | 0 <= i < |t.messages| && 0 <= j < |t.messages| && i != j ::
      t.messages[i].id != t.messages[j].id
  {
    forall i, j | 0 <= i < |t.messages| && 0 <= j < |t.messages| && i != j
      ensures t.messages[i].id != t.messages[j].id
    {
      if i < j {
        IncreasingIsStrict(t.messages, i, j);
      } else {
        IncreasingIsStrict(t.messages, j, i);
      }
    }
  }
}
