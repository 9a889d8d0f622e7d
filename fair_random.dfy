/** FairRandomGenerator: the commit-reveal exchange that picks a number in [0, range) that neither
    the program nor the user can steer alone. The program draws a key and a secret number, shows
    the HMAC of the secret's decimal text under the key, asks the user for a number, adds the two
    modulo range, and only then shows the secret and the key, so that the user can recompute the
    HMAC and compare it with the commitment.

    The random draws are parameters (the 32 key bytes from crypto.randomBytes and the number from
    crypto.randomInt(0, range)), the HMAC is a parameter (see HmacCalc), the typed answer is a
    parameter, and the console is the `log` of events the exchange writes. */
module FairRandom {
  import opened Wrappers
  import opened JsStrings
  import opened JsNumbers
  import opened KeyGenerator
  import opened HmacCalc

  /** What the exchange writes to the console, in order. */
  datatype Event =
    | ShowCommitment(hmac: string)  // "Comitment (HMAC): <hex>"
    | Prompt(range: int)            // "Enter a number between 0 and <range - 1>, X (exit), or ? (help): "
    | Help                          // the help text
    | Invalid                       // "Invalid input."
    | ShowSecret(number: string)    // "computer's number: <decimal>"
    | ShowKey(key: string)          // "key for verify: <hex>"

  /** An event that gives away the secret number or the key. */
  predicate IsDisclosure(e: Event) {
    e.ShowSecret? || e.ShowKey?
  }

  predicate Discloses(log: seq<Event>) {
    exists i :: 0 <= i < |log| && IsDisclosure(log[i])
  }

  /** What getNumber makes of one answer. */
  datatype Answer =
    | Exit                                    // "X": the process exits at once
    | Reply(help: bool, number: Option<nat>)  // `help` when the help text was shown; the number when it is accepted

  predicate Accepted(a: Answer) {
    a.Reply? && a.number.Some?
  }

  /** What every classified answer satisfies: an accepted number lies in [0, range), and an
      answer for which the help text was shown is never accepted. */
  predicate Consistent(a: Answer, range: int) {
    Accepted(a) ==> !a.help && a.number.value < range
  }

  /** The range check of getNumber: a number, at least 0 and below range. */
  function Validate(parsed: JsNumber, range: int): Option<nat> {
    if parsed.Num? && 0 <= parsed.value < range then Some(parsed.value) else None
  }

  /** getNumber's treatment of an answer: "X" exits; "?" shows the help and asks again, but the
      code then goes on to parseInt("?"), which is NaN, so the answer is refused anyway; any other
      answer is parseInt'ed and accepted only when it lies in [0, range). */
  function ClassifyAnswer(answer: string, range: int): (r: Answer)
    ensures Consistent(r, range)
  {
    QuestionMarkIsNaN();
    if answer == "X" then Exit else Reply(answer == "?", Validate(ParseInt(answer), range))
  }

  /** What getNumber writes after its prompt: the help text and the repeated prompt of the
      recursive call for "?", then "Invalid input." for a refused answer. */
  function AnswerEvents(a: Answer, range: int): (ev: seq<Event>)
    ensures forall i :: 0 <= i < |ev| ==> ev[i].Help? || ev[i].Prompt? || ev[i].Invalid?
  {
    match a
    case Exit => []
    case Reply(help, number) =>
      (if help then [Help, Prompt(range)] else []) + (if number.None? then [Invalid] else [])
  }

  /** `(userNumber + computerNumber) % range`; both operands are non-negative, so JavaScript's
      remainder and Dafny's agree. */
  function Combine(userNumber: nat, computerNumber: nat, range: nat): (r: nat)
    requires range > 0
    ensures r < range
    ensures userNumber < range && computerNumber < range ==>
              r == if userNumber + computerNumber < range then userNumber + computerNumber
                   else userNumber + computerNumber - range
  {
    SmallModulo(userNumber + computerNumber, range);
    (userNumber + computerNumber) % range
  }

  /** The published commitment: the HMAC, under the key text, of the secret's decimal text. */
  function Commitment(hmac: Hmac, key: string, secret: nat): string {
    CalculateHmac(hmac, key, Decimal(secret))
  }

  /** The two lines written after the final number is computed. */
  function Disclosure(key: string, secret: nat): seq<Event> {
    [ShowSecret(Decimal(secret)), ShowKey(key)]
  }

  /** The user's check: the HMAC of the shown number under the shown key is the shown commitment. */
  predicate Verifies(hmac: Hmac, commitment: string, key: string, secretText: string) {
    CalculateHmac(hmac, key, secretText) == commitment
  }

  datatype Outcome = Exited | Rejected | Final(number: nat)

  /** The value generateNumber ends with, given how the answer was classified. */
  function ExchangeOutcome(range: nat, secret: nat, a: Answer): (r: Outcome)
    requires range > 0
    ensures r.Final? <==> Accepted(a)
    ensures r == Exited <==> a.Exit?
    ensures r.Final? ==> r.number < range
  {
    match a
    case Exit => Exited
    case Reply(_, None) => Rejected
    case Reply(_, Some(n)) => Final(Combine(n, secret, range))
  }

  /** Everything generateNumber writes, in order, given how the answer was classified. */
  function ExchangeTrace(range: nat, hmac: Hmac, keyBytes: seq<Byte>, secret: nat, a: Answer): (t: seq<Event>)
    requires |keyBytes| == 32
    ensures |t| >= 2 && t[0] == ShowCommitment(Commitment(hmac, GenerateKey(keyBytes), secret)) && t[1] == Prompt(range)
  {
    var key := GenerateKey(keyBytes);
    [ShowCommitment(Commitment(hmac, key, secret)), Prompt(range)]
      + (AnswerEvents(a, range) + (if Accepted(a) then Disclosure(key, secret) else []))
  }

  datatype Phase = Init | Committed | Contributed | Revealed

  /** One run of the exchange as a state machine: Init, then Committed once the commitment is
      shown, Contributed once an answer is accepted, Revealed once the secret and key are shown.
      A refused answer or "X" ends the process, which leaves the run in Committed with `halted`. */
  class FairRandomGenerator {
    const range: nat
    const hmac: Hmac
    var phase: Phase
    var key: string
    var computerNumber: nat
    var commitment: string
    var userNumber: nat
    var finalNumber: nat
    var halted: bool
    var answer: Answer
    var log: seq<Event>

    ghost predicate Valid()
      reads this
    {
      && range > 0
      && (phase != Init ==>
            && computerNumber < range
            && |key| == 64
            && commitment == Commitment(hmac, key, computerNumber))
      && (halted ==> phase == Committed && !Accepted(answer))
      && (phase == Init ==> log == [] && !halted)
      && (phase == Committed && !halted ==> log == [ShowCommitment(commitment)])
      && (phase == Committed && halted ==>
            log == [ShowCommitment(commitment), Prompt(range)] + AnswerEvents(answer, range))
      && (phase == Contributed ==> userNumber < range && log == [ShowCommitment(commitment), Prompt(range)])
      && (phase == Revealed ==>
            && userNumber < range
            && finalNumber == Combine(userNumber, computerNumber, range)
            && log == [ShowCommitment(commitment), Prompt(range)] + Disclosure(key, computerNumber))
    }

    /** However a run has gone so far, the commitment was written first and only once, and the
        secret and the key have been written only if the run reached Revealed. */
    lemma LogIsOrdered()
      requires Valid() && phase != Init
      ensures |log| >= 1 && log[0] == ShowCommitment(commitment)
      ensures forall i :: 1 <= i < |log| ==> !log[i].ShowCommitment?
      ensures Discloses(log) <==> phase == Revealed
    {
      if phase == Committed && halted {
        var ev := AnswerEvents(answer, range);
        assert forall i :: 2 <= i < |log| ==> log[i] == ev[i - 2];
      }
      if phase == Revealed {
        assert IsDisclosure(log[2]);
      }
    }

    constructor (range: nat, hmac: Hmac)
      requires range > 0
      ensures Valid() && phase == Init && log == []
      ensures this.range == range && this.hmac == hmac
    {
      this.range := range;
      this.hmac := hmac;
      phase := Init;
      key := "";
      computerNumber := 0;
      commitment := "";
      userNumber := 0;
      finalNumber := 0;
      halted := false;
      answer := Exit;
      log := [];
    }

    /** The start of generateNumber: draw the key and the secret, compute the HMAC of the
        secret's decimal text and show it. */
    method Commit(keyBytes: seq<Byte>, drawn: nat)
      requires Valid() && phase == Init
      requires |keyBytes| == 32 && drawn < range
      modifies this
      ensures Valid() && phase == Committed && !halted
      ensures key == GenerateKey(keyBytes) && computerNumber == drawn
      ensures commitment == Commitment(hmac, key, drawn)
      ensures log == [ShowCommitment(commitment)]
      ensures userNumber == old(userNumber) && finalNumber == old(finalNumber) && answer == old(answer)
    {
      key := GenerateKey(keyBytes);
      computerNumber := drawn;
      commitment := CalculateHmac(hmac, key, Decimal(computerNumber));
      log := log + [ShowCommitment(commitment)];
      phase := Committed;
    }

    /** `await this.getNumber(range)`: ask for the user's number and check it. An accepted number moves the
        run to Contributed; "X" or a refused answer halts it with nothing disclosed. */
    method Contribute(typed: string) returns (a: Answer)
      requires Valid() && phase == Committed && !halted
      modifies this
      ensures Valid()
      ensures a == ClassifyAnswer(typed, range) && answer == a
      ensures log == old(log) + [Prompt(range)] + AnswerEvents(a, range)
      ensures key == old(key) && computerNumber == old(computerNumber) && commitment == old(commitment)
      ensures finalNumber == old(finalNumber)
      ensures Accepted(a) ==> phase == Contributed && !halted && userNumber == a.number.value
      ensures !Accepted(a) ==> phase == Committed && halted && userNumber == old(userNumber)
    {
      a := ClassifyAnswer(typed, range);
      Answered(a);
    }

    /** The effect of a classified answer: the prompt, then for "?" the help text and the prompt of
        the recursive call, then "Invalid input." and process.exit for a refused answer. */
    method Answered(a: Answer)
      requires Valid() && phase == Committed && !halted && Consistent(a, range)
      modifies this
      ensures Valid() && answer == a
      ensures log == old(log) + [Prompt(range)] + AnswerEvents(a, range)
      ensures key == old(key) && computerNumber == old(computerNumber) && commitment == old(commitment)
      ensures finalNumber == old(finalNumber)
      ensures Accepted(a) ==> phase == Contributed && !halted && userNumber == a.number.value
      ensures !Accepted(a) ==> phase == Committed && halted && userNumber == old(userNumber)
    {
      log := log + [Prompt(range)];
      answer := a;
      match a
      case Exit =>
        halted := true;
      case Reply(help, number) =>
        if help {
          log := log + [Help, Prompt(range)];
        }
        if number.None? {
          log := log + [Invalid];
          halted := true;
        } else {
          userNumber := number.value;
          phase := Contributed;
        }
    }

    /** The end of generateNumber: combine the two numbers, then show the secret and the key. */
    method Reveal() returns (r: nat)
      requires Valid() && phase == Contributed
      modifies this
      ensures Valid() && phase == Revealed
      ensures r == finalNumber && r == Combine(userNumber, computerNumber, range) && r < range
      ensures log == old(log) + Disclosure(key, computerNumber)
      ensures key == old(key) && computerNumber == old(computerNumber) && commitment == old(commitment)
      ensures userNumber == old(userNumber) && answer == old(answer) && !halted
    {
      finalNumber := (userNumber + computerNumber) % range;
      log := log + [ShowSecret(Decimal(computerNumber)), ShowKey(key)];
      phase := Revealed;
      r := finalNumber;
    }
  }

  /** FairRandomGenerator.generateNumber: one whole run of the exchange. */
  method GenerateNumber(range: nat, hmac: Hmac, keyBytes: seq<Byte>, drawn: nat, answer: string)
    returns (outcome: Outcome, log: seq<Event>)
    requires range > 0 && |keyBytes| == 32 && drawn < range
    ensures outcome == ExchangeOutcome(range, drawn, ClassifyAnswer(answer, range))
    ensures log == ExchangeTrace(range, hmac, keyBytes, drawn, ClassifyAnswer(answer, range))
  {
    var g := new FairRandomGenerator(range, hmac);
    g.Commit(keyBytes, drawn);
    var a := g.Contribute(answer);
    TraceOf(range, hmac, keyBytes, drawn, a);
    if !Accepted(a) {
      outcome := if a.Exit? then Exited else Rejected;
      log := g.log;
      return;
    }
    var n := g.Reveal();
    outcome := Final(n);
    log := g.log;
  }

  /** ExchangeTrace of a classified answer, case by case. */
  lemma TraceOf(range: nat, hmac: Hmac, keyBytes: seq<Byte>, secret: nat, a: Answer)
    requires |keyBytes| == 32 && Consistent(a, range)
    ensures var head := [ShowCommitment(Commitment(hmac, GenerateKey(keyBytes), secret)), Prompt(range)];
      && (!Accepted(a) ==> ExchangeTrace(range, hmac, keyBytes, secret, a) == head + AnswerEvents(a, range))
      && (Accepted(a) ==> ExchangeTrace(range, hmac, keyBytes, secret, a) == head + Disclosure(GenerateKey(keyBytes), secret))
  {
    if Accepted(a) {
      assert AnswerEvents(a, range) == [];
    } else {
      assert AnswerEvents(a, range) + [] == AnswerEvents(a, range);
    }
  }

  /** parseInt("?") is NaN. */
  lemma QuestionMarkIsNaN()
    ensures ParseInt("?") == NaN
  {
    assert TrimStart("?") == "?";
    assert DigitPrefix("?", 10) == "";
  }

  /** An answer with no decimal digit after its white space and sign is refused: parseInt gives
      NaN, and "X", the one such answer handled before parseInt, exits. */
  lemma NonNumeralIsRefused(ws: string, sign: string, rest: string, range: int)
    requires forall i :: 0 <= i < |ws| ==> IsJsSpace(ws[i])
    requires sign == "" || sign == "+" || sign == "-"
    requires |rest| == 0 || !IsDigit(rest[0], 10)
    requires sign == "" && |rest| > 0 ==> !IsJsSpace(rest[0]) && rest[0] != '+' && rest[0] != '-'
    ensures var answer := ws + (sign + rest);
            && !Accepted(ClassifyAnswer(answer, range))
            && (answer != "X" ==> ClassifyAnswer(answer, range) == Reply(answer == "?", None))
  {
    NoNumeralIsNaN(ws, sign, rest);
  }

  /** "X" exits; "?" shows the help and is refused; otherwise an answer is accepted exactly when
      parseInt reads a number in [0, range) from it, and that number is the contribution. */
  lemma AnswerAcceptance(answer: string, range: int)
    ensures ClassifyAnswer(answer, range) == Exit <==> answer == "X"
    ensures ClassifyAnswer(answer, range) == Reply(true, None) <==> answer == "?"
    ensures Accepted(ClassifyAnswer(answer, range)) <==>
              answer != "X" && ParseInt(answer).Num? && 0 <= ParseInt(answer).value < range
    ensures Accepted(ClassifyAnswer(answer, range)) ==>
              ClassifyAnswer(answer, range).number.value == ParseInt(answer).value
  {
    QuestionMarkIsNaN();
  }

  /** Typing any number in [0, range) in plain decimal is accepted as that number. */
  lemma NumeralIsAccepted(n: nat, range: int)
    requires n < range
    ensures ClassifyAnswer(Decimal(n), range) == Reply(false, Some(n))
  {
    DecimalParses(n);
    assert Decimal(n)[0] != 'X' && Decimal(n)[0] != '?';
  }

  /** With an accepted answer the final number is the modular sum of the two numbers and lies in
      [0, range); with range 1 it is always 0. "X" ends the run with no number, and so does every
      refused answer. */
  lemma FinalNumberIsModularSum(range: nat, secret: nat, a: Answer)
    requires range > 0 && secret < range && Consistent(a, range)
    ensures ExchangeOutcome(range, secret, a).Final? <==> Accepted(a)
    ensures ExchangeOutcome(range, secret, a) == Exited <==> a.Exit?
    ensures Accepted(a) ==>
              var f := ExchangeOutcome(range, secret, a).number;
              f == (a.number.value + secret) % range && f < range
    ensures range == 1 && ExchangeOutcome(range, secret, a).Final? ==>
              ExchangeOutcome(range, secret, a).number == 0
  {
  }

  /** The contribution that turns `other` into the final number `target`: the inverse partner of Combine. */
  function Uncombine(target: nat, other: nat, range: nat): nat
    requires range > 0
  {
    (target + range - other % range) % range
  }

  /** The user's number decides the final number one-to-one: for a fixed secret, each
      contribution in [0, range) gives a different result and each result in [0, range) comes
      from exactly one contribution, so a uniformly chosen contribution (or, the same way, a
      uniformly drawn secret) gives a uniform result. */
  lemma {:induction false} CombineIsBijection(u: nat, target: nat, other: nat, range: nat)
    requires range > 0 && other < range
    ensures u < range ==> Uncombine(Combine(u, other, range), other, range) == u
    ensures target < range ==> Uncombine(target, other, range) < range
    ensures target < range ==> Combine(Uncombine(target, other, range), other, range) == target
  {
    assert other % range == other;
    if u < range {
      SmallModulo(Combine(u, other, range) + range - other, range);
    }
    if target < range {
      SmallModulo(target + range - other, range);
    }
  }

  /** A sum of two numbers below range wraps at most once. */
  lemma SmallModulo(x: nat, range: nat)
    requires 0 < range
    ensures x < 2 * range ==> x % range == if x < range then x else x - range
  {
    if range <= x < 2 * range {
      assert x == 1 * range + (x - range);
    }
  }

  /** The commitment is the first thing written, the prompt comes right after it, and no other
      commitment is ever shown in the run. */
  lemma CommitmentComesFirst(range: nat, hmac: Hmac, keyBytes: seq<Byte>, secret: nat, a: Answer)
    requires |keyBytes| == 32
    ensures var t := ExchangeTrace(range, hmac, keyBytes, secret, a);
            && |t| >= 2
            && t[0] == ShowCommitment(Commitment(hmac, GenerateKey(keyBytes), secret))
            && t[1] == Prompt(range)
            && forall i :: 1 <= i < |t| ==> !t[i].ShowCommitment?
  {
  }

  /** How a run that yields no number ends: after "X" nothing follows the prompt; a refused
      answer ends the output with "Invalid input.", which appears in no other run; the help text
      and a second prompt come right after the first prompt when "?" was typed. */
  lemma RefusedAnswerTrace(range: nat, hmac: Hmac, keyBytes: seq<Byte>, secret: nat, a: Answer)
    requires |keyBytes| == 32 && Consistent(a, range)
    ensures var t := ExchangeTrace(range, hmac, keyBytes, secret, a);
            && (a.Exit? ==> t == [ShowCommitment(Commitment(hmac, GenerateKey(keyBytes), secret)), Prompt(range)])
            && (a.Reply? && a.number.None? ==> |t| == (if a.help then 5 else 3) && t[|t| - 1] == Invalid)
            && (a.Reply? && a.help ==> |t| >= 4 && t[2] == Help && t[3] == Prompt(range))
            && ((exists i :: 0 <= i < |t| && t[i] == Invalid) <==> a.Reply? && a.number.None?)
  {
    var t := ExchangeTrace(range, hmac, keyBytes, secret, a);
    if a.Reply? && a.number.None? {
      assert t[|t| - 1] == Invalid;
    } else {
      assert AnswerEvents(a, range) == [];
    }
  }

  /** The secret and the key are shown if and only if the answer was accepted, and only after
      the commitment and the prompt. "X" and every refused answer, "?" included, reveal nothing. */
  lemma DisclosureOnlyAfterAcceptance(range: nat, hmac: Hmac, keyBytes: seq<Byte>, secret: nat, a: Answer)
    requires |keyBytes| == 32
    ensures var t := ExchangeTrace(range, hmac, keyBytes, secret, a);
            && (Discloses(t) <==> Accepted(a))
            && forall i :: 0 <= i < |t| && IsDisclosure(t[i]) ==> 2 <= i
  {
    var key := GenerateKey(keyBytes);
    var ev := AnswerEvents(a, range);
    var tail := ev + (if Accepted(a) then Disclosure(key, secret) else []);
    var t := ExchangeTrace(range, hmac, keyBytes, secret, a);
    assert t == [ShowCommitment(Commitment(hmac, key, secret)), Prompt(range)] + tail;
    if Accepted(a) {
      assert IsDisclosure(t[|t| - 1]);
    } else {
      forall i | 0 <= i < |t|
        ensures !IsDisclosure(t[i])
      {
        if i >= 2 {
          assert t[i] == ev[i - 2];
        }
      }
    }
  }

  /** After an accepted answer the user sees enough to check the exchange: the HMAC of the shown
      number under the shown key is the commitment shown before the prompt, the shown number reads
      back as the secret, and the shown key is the hex of the drawn key bytes. */
  lemma DisclosedValuesVerify(range: nat, hmac: Hmac, keyBytes: seq<Byte>, secret: nat, a: Answer)
    requires |keyBytes| == 32
    requires Accepted(a) && Consistent(a, range)
    ensures var t := ExchangeTrace(range, hmac, keyBytes, secret, a);
            && |t| == 4
            && t[0].ShowCommitment? && t[2].ShowSecret? && t[3].ShowKey?
            && Verifies(hmac, t[0].hmac, t[3].key, t[2].number)
            && ParseInt(t[2].number) == Num(secret)
            && HexDecode(t[3].key) == keyBytes
  {
    var key := GenerateKey(keyBytes);
    var c := Commitment(hmac, key, secret);
    assert AnswerEvents(a, range) == [];
    assert ExchangeTrace(range, hmac, keyBytes, secret, a)
        == [ShowCommitment(c), Prompt(range), ShowSecret(Decimal(secret)), ShowKey(key)];
    DecimalParses(secret);
  }

  /** Two concrete runs: range 6, secret 3 and answer "4" give 1; range 2, secret 1 and answer
      "1" give 0. */
  lemma ExampleRuns()
    ensures ExchangeOutcome(6, 3, ClassifyAnswer("4", 6)) == Final(1)
    ensures ExchangeOutcome(2, 1, ClassifyAnswer("1", 2)) == Final(0)
  {
    assert ClassifyAnswer("4", 6) == Reply(false, Some(4)) by {
      NumeralIsAccepted(4, 6);
      assert Decimal(4) == "4";
    }
    assert ClassifyAnswer("1", 2) == Reply(false, Some(1)) by {
      NumeralIsAccepted(1, 2);
      assert Decimal(1) == "1";
    }
  }

  /** The answer "?" ends in a refusal, after the help text and a second prompt. */
  lemma HelpExample(range: nat, hmac: Hmac, keyBytes: seq<Byte>, secret: nat)
    requires range > 0 && |keyBytes| == 32
    ensures ExchangeOutcome(range, secret, ClassifyAnswer("?", range)) == Rejected
    ensures ExchangeTrace(range, hmac, keyBytes, secret, ClassifyAnswer("?", range))[2..]
         == [Help, Prompt(range), Invalid]
  {
    assert ClassifyAnswer("?", range) == Reply(true, None) by {
      QuestionMarkIsNaN();
    }
  }
}
