/** Game.play: the exchange picks the user's die, then every die is rolled once and the winner is
    the first die showing the highest roll. */
module Game {
  import opened Dice
  import opened KeyGenerator
  import opened HmacCalc
  import opened FairRandom

  /** Math.max over a non-empty list of rolls. */
  function MaxOf(s: seq<int>): (m: int)
    requires |s| > 0
    ensures m in s
    ensures forall i :: 0 <= i < |s| ==> s[i] <= m
  {
    if |s| == 1 then s[0]
    else
      var rest := MaxOf(s[1..]);
      if s[0] >= rest then s[0] else rest
  }

  /** Array.prototype.indexOf: the first index holding `x`, or -1 when there is none. */
  function IndexOf(s: seq<int>, x: int): (k: int)
    ensures -1 <= k < |s|
    ensures k == -1 <==> x !in s
    ensures k >= 0 ==> s[k] == x && forall j :: 0 <= j < k ==> s[j] != x
  {
    if |s| == 0 then -1
    else if s[0] == x then 0
    else
      var k := IndexOf(s[1..], x);
      if k == -1 then -1 else k + 1
  }

  /** `roll.indexOf(Math.max(...roll))`. With no rolls Math.max gives -Infinity, which indexOf
      does not find, so the result is -1. */
  function Winner(rolls: seq<int>): (w: int)
    ensures -1 <= w < |rolls|
    ensures w == -1 <==> |rolls| == 0
  {
    if |rolls| == 0 then -1 else IndexOf(rolls, MaxOf(rolls))
  }

  /** The winner is a die whose roll is at least every other roll, and every die before it rolled
      strictly less: it is the first maximum. */
  lemma WinnerIsFirstMaximum(rolls: seq<int>)
    requires |rolls| > 0
    ensures 0 <= Winner(rolls) < |rolls|
    ensures forall j :: 0 <= j < |rolls| ==> rolls[j] <= rolls[Winner(rolls)]
    ensures forall j :: 0 <= j < Winner(rolls) ==> rolls[j] < rolls[Winner(rolls)]
  {
  }

  /** There is only one first maximum, so the winner is fully determined by the rolls. */
  lemma FirstMaximumIsUnique(rolls: seq<int>, k: int)
    requires 0 <= k < |rolls|
    requires forall j :: 0 <= j < |rolls| ==> rolls[j] <= rolls[k]
    requires forall j :: 0 <= j < k ==> rolls[j] < rolls[k]
    ensures Winner(rolls) == k
  {
    WinnerIsFirstMaximum(rolls);
  }

  /** `this.diceSet.map(dice => dice.roll())`, given the index each roll drew. */
  function Rolls(dice: seq<Die>, picks: seq<nat>): (rolls: seq<int>)
    requires |picks| == |dice|
    requires forall i :: 0 <= i < |dice| ==> picks[i] < |dice[i].faces|
    ensures |rolls| == |dice|
    ensures forall i :: 0 <= i < |dice| ==> rolls[i] in dice[i].faces
  {
    seq(|dice|, i requires 0 <= i < |dice| => dice[i].Roll(picks[i]))
  }

  datatype PlayResult =
    | Stopped(outcome: Outcome)                               // the exchange ended the process
    | Played(diceIndex: nat, rolls: seq<int>, winner: nat)

  /** Game.play, given the random draws of the exchange and of every roll and the user's answer. */
  method Play(dice: seq<Die>, hmac: Hmac, keyBytes: seq<Byte>, drawn: nat, answer: string, picks: seq<nat>)
    returns (result: PlayResult, log: seq<Event>)
    requires |dice| > 0 && |keyBytes| == 32 && drawn < |dice|
    requires |picks| == |dice| && forall i :: 0 <= i < |dice| ==> picks[i] < |dice[i].faces|
    ensures log == ExchangeTrace(|dice|, hmac, keyBytes, drawn, ClassifyAnswer(answer, |dice|))
    ensures result.Played? <==> Accepted(ClassifyAnswer(answer, |dice|))
    ensures result.Stopped? ==> result.outcome == ExchangeOutcome(|dice|, drawn, ClassifyAnswer(answer, |dice|))
    ensures result.Played? ==>
              && Final(result.diceIndex) == ExchangeOutcome(|dice|, drawn, ClassifyAnswer(answer, |dice|))
              && result.diceIndex < |dice|
              && result.rolls == Rolls(dice, picks)
              && result.winner < |dice|
              && (forall j :: 0 <= j < |dice| ==> result.rolls[j] <= result.rolls[result.winner])
              && (forall j :: 0 <= j < result.winner ==> result.rolls[j] < result.rolls[result.winner])
  {
    var outcome;
    outcome, log := GenerateNumber(|dice|, hmac, keyBytes, drawn, answer);
    FinalNumberIsModularSum(|dice|, drawn, ClassifyAnswer(answer, |dice|));
    if !outcome.Final? {
      return Stopped(outcome), log;
    }
    var rolls := Rolls(dice, picks);
    WinnerIsFirstMaximum(rolls);
    var winner := Winner(rolls);
    result := Played(outcome.number, rolls, winner);
  }
}
