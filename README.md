# Provably fair dice game: a Dafny model

This project models the logic of `diceGame.js`, a console dice game. Each die is a command-line argument
of six comma-separated integers. Before the roll, the program and the user pick the user's die together
through a commit-reveal exchange:

1. The program draws a 32-byte key and a secret number in `[0, range)`.
2. It shows the HMAC-SHA3-256 of the secret's decimal text under the key (the commitment).
3. It asks the user for a number.
4. It adds the two numbers modulo `range`.
5. Only then does it show the secret and the key, so the user can recompute the HMAC and compare.

After that, every die is rolled and the winner is the first die showing the highest roll.

Modules follow the JavaScript classes:

- `KeyGenerator`: the hex key.
- `HmacCalc`: the keyed hash.
- `Dice`: a die and its roll.
- `DiceParser`: argument parsing.
- `FairRandom`: `FairRandomGenerator`, as a state machine `Init → Committed → Contributed → Revealed`.
- `Game`: the roll and the winner.

Two more modules model the JavaScript built-ins the code relies on. `JsStrings` covers white-space
trimming and `split`. `JsNumbers` covers `parseInt`, `Number()` and integer `toString`.

Inputs from outside the program become parameters:

- the 32 key bytes from `crypto.randomBytes`;
- the secret from `crypto.randomInt(0, range)`;
- the index of each die roll;
- the user's typed answer;
- the HMAC function.

The HMAC is any function from a key text and a message text to a 32-byte digest, so the model relies
only on it being deterministic. Console output becomes a log of `Event` values. `process.exit` becomes
a halted run, or an `Exited` / `Rejected` outcome.

Behaviour of the code that the model keeps:

- The answer `"?"` shows the help text, and the recursive call writes a second prompt. But the callback
  has no `return` after the help branch, so it goes on to `parseInt("?")`, which is NaN. It then writes
  "Invalid input." and exits. The model keeps this: `"?"` is always refused (`HelpExample`).
- The answer goes through `parseInt`, not a strict integer check. Leading white space, a sign and
  trailing junk are all accepted (`" 2abc"` reads as 2). `"-0"` reads as 0. A `"0x"` prefix switches
  to base 16, so `"0x1"` reads as 1. `ParseIntDigits` states the decimal case, including the `"0x"`
  exception, and `ParseIntHex` the hexadecimal one.
- A refused or aborted answer ends the process. In the model the run stays in `Committed`, marked
  halted, with nothing disclosed. There is no retry.
- A range of 0 or less is not checked by the exchange (`crypto.randomInt` would throw). The model
  requires `range > 0`. The only caller passes the number of dice, which `main` ensures is at least 2.

## Model

| member | source | states |
|---|---|---|
| `KeyGenerator.HexEncode` | diceGame.js:6 | hex text has two lowercase hex digits per byte |
| `KeyGenerator.HexRoundTrip` | diceGame.js:6 | decoding the hex text gives back the bytes, so the shown key identifies the drawn key |
| `KeyGenerator.GenerateKey` | diceGame.js:5-7 | the key is 64 lowercase hex digits that decode to the 32 drawn bytes |
| `HmacCalc.CalculateHmac` | diceGame.js:11-13 | the commitment is 64 lowercase hex digits that decode to the digest of (key, message); a function of its inputs alone |
| `Dice.Die.Roll` | diceGame.js:21-24 | a roll at any index the random source can give is one of the die's faces |
| `Dice.EveryFaceCanBeRolled` | diceGame.js:21-24 | every face is the result of some index |
| `JsStrings.TrimStart` | diceGame.js:80 | drops exactly the leading JavaScript white space |
| `JsStrings.TrimEnd` | diceGame.js:30 | drops exactly the trailing JavaScript white space (used by Number()) |
| `JsStrings.Trim` | diceGame.js:30 | the trimmed text is the slice of the input left after removing its leading and its trailing white space (`StripsSpaceAround`); it starts and ends with something other than white space, and is empty iff the input is all white space |
| `JsStrings.TrimAround` | diceGame.js:30 | white space put around a text with non-space ends is exactly what trimming removes |
| `JsStrings.Split` | diceGame.js:30 | `split(",")` always yields at least one piece |
| `JsStrings.SplitShape` | diceGame.js:30 | one piece more than there are commas; no piece contains a comma |
| `JsStrings.JoinSplit` | diceGame.js:30 | joining the pieces with commas gives back the argument |
| `JsStrings.SplitJoin` | diceGame.js:30 | splitting comma-free pieces that were joined gives back the pieces |
| `JsNumbers.ParseInt` | diceGame.js:80 | a number comes only from text that is not blank after the leading white space, and a negative number only from text starting with '-' there (pinned down by `ParseIntDigits`, `ParseIntHex` and `NoNumeralIsNaN`) |
| `JsNumbers.NoNumeralIsNaN` | diceGame.js:80-81 | the converse of `ParseIntDigits`: when no decimal digit follows the white space and the sign, parseInt gives NaN |
| `JsNumbers.ToNumber` | diceGame.js:30 | Number() of a field: negative only when the trimmed field starts with '-', and NaN when the trimmed field starts with anything but a digit or a sign (pinned down by `ToNumberField`, `ToNumberPrefixed`, `ToNumberOtherIsNaN` and `BlankFieldIsZero`) |
| `JsNumbers.ToNumberOtherIsNaN` | diceGame.js:30-31 | the converse of `ToNumberField` and `ToNumberPrefixed`: a field whose trimmed text is neither an optionally signed run of decimal digits nor a 0x/0o/0b literal ("12abc", "-", "1 2", "-0x1") converts to NaN, so the die is refused |
| `JsNumbers.ToNumberField` | diceGame.js:30 | a field of white space, an optional sign, any non-empty run of decimal digits (leading zeros included) and white space converts to the signed value of the digits |
| `JsNumbers.ToNumberPrefixed` | diceGame.js:30 | a field of white space, "0x", "0o" or "0b" in either case, a text and white space converts to the text's value in base 16, 8 or 2 when it is a non-empty run of that base's digits, and to NaN otherwise |
| `JsNumbers.Decimal` | diceGame.js:94 | `n.toString()` for the secret: a non-empty run of decimal digits with no leading zero, one digit exactly when n < 10 |
| `JsNumbers.IntToString` | diceGame.js:30 | the inverse partner of Number() that `DiceParser.FormatDie` uses for the round trip `ToNumberOfIntToString` (the program itself never writes a signed integer as text): the decimal text of an integer, non-empty, starting with '-' iff the integer is negative, and digits otherwise |
| `JsNumbers.DigitPrefix` | diceGame.js:80 | parseInt reads the longest run of digits: all digits, and the next character is not one |
| `JsNumbers.ParseIntDigits` | diceGame.js:80 | for any non-empty run of decimal digits after white space and a sign, followed by anything not starting with a digit, parseInt gives the signed value of the run; the one exception is "0" followed by "x" or "X" |
| `JsNumbers.ParseIntHex` | diceGame.js:80 | after white space, a sign and "0x" or "0X", parseInt gives the signed value of the longest run of hex digits, and NaN when there is none |
| `JsNumbers.ParseIntNumeral` | diceGame.js:80 | the corollary of `ParseIntDigits` for a numeral written as `n.toString()`: it reads as n, or -n after '-' |
| `JsNumbers.DecimalValue` | diceGame.js:94 | the decimal text of n has value n |
| `JsNumbers.DecimalParses` | diceGame.js:94 | parseInt of `n.toString()` is n, so the shown secret reads back exactly |
| `JsNumbers.DecimalInjective` | diceGame.js:94 | different secrets have different decimal texts, so the HMAC message determines the secret |
| `JsNumbers.ToNumberOfIntToString` | diceGame.js:30 | Number() reads back the decimal text of any integer of magnitude at most 2^53, the integers a JavaScript number holds exactly |
| `JsNumbers.BlankFieldIsZero` | diceGame.js:30-31 | an empty or blank field converts to 0, not NaN, so it passes the NaN check |
| `DiceParser.ParseDie` | diceGame.js:30-34 | an argument gives a die iff it has exactly six fields and none is NaN; the faces are the converted fields in order |
| `DiceParser.Parse` | diceGame.js:28-36 | success iff every argument is well formed; then one die per argument, in order; otherwise the fixed format error |
| `DiceParser.ParseFormatted` | diceGame.js:30-34 | any six integers of magnitude at most 2^53, written as comma-separated decimals, parse into a die with exactly those faces |
| `DiceParser.ParseFormattedArgs` | diceGame.js:28-36 | a list of such arguments parses into exactly those dice, in order |
| `DiceParser.Fields` | diceGame.js:30 | `split(",").map(Number)`: one converted number per comma-separated piece, in order |
| `DiceParser.WellFormed` | diceGame.js:30-31 | the check that does not throw; an argument that passes it has exactly five commas |
| `DiceParser.WrongFieldCountFails` | diceGame.js:30-33 | one argument with a field count other than six makes the whole parse fail |
| `FairRandom.ClassifyAnswer` | diceGame.js:74-86 | an accepted number lies in [0, range), and an answer that showed the help text is never accepted |
| `FairRandom.AnswerEvents` | diceGame.js:76-83 | handling an answer writes only help text, prompts and "Invalid input." |
| `FairRandom.QuestionMarkIsNaN` | diceGame.js:76-81 | parseInt("?") is NaN, which is why the help branch falls through to the refusal |
| `FairRandom.NonNumeralIsRefused` | diceGame.js:75-83 | an answer with no decimal digit after its white space and sign is never accepted; apart from "X" it is refused, with the help flag set only for "?" |
| `FairRandom.AnswerAcceptance` | diceGame.js:75-86 | "X" exits; "?" is helped and refused; any other answer is accepted iff parseInt gives a number in [0, range), and that number is the contribution |
| `FairRandom.NumeralIsAccepted` | diceGame.js:80-86 | typing any n in [0, range) in decimal is accepted as n |
| `FairRandom.FairRandomGenerator.LogIsOrdered` | diceGame.js:92-102 | in every state after Init the commitment was written first and once, and the secret or key was written iff the run is Revealed |
| `FairRandom.FairRandomGenerator.Commit` | diceGame.js:92-96 | Init to Committed: key from the drawn bytes, secret as drawn, commitment the HMAC of its decimal text, and the commitment is the only output so far |
| `FairRandom.FairRandomGenerator.Contribute` | diceGame.js:74-86 | Committed to Contributed with the parsed number when the answer is accepted; otherwise halted in Committed; appends the prompt and the answer's messages; key, secret and commitment unchanged |
| `FairRandom.FairRandomGenerator.Answered` | diceGame.js:75-86 | the state change for a classified answer: prompt, help text and second prompt for "?", "Invalid input." and halt for a refusal |
| `FairRandom.FairRandomGenerator.Reveal` | diceGame.js:99-104 | Contributed to Revealed: the result is (user + secret) mod range, below range; then the secret's text and the key are appended |
| `FairRandom.GenerateNumber` | diceGame.js:91-105 | a whole run of the state machine gives exactly the outcome `ExchangeOutcome` defines and writes exactly the trace `ExchangeTrace` defines |
| `FairRandom.FinalNumberIsModularSum` | diceGame.js:98-99 | a number results iff the answer was accepted; it is (contribution + secret) mod range, below range; with range 1 it is 0; "X" alone gives Exited |
| `FairRandom.CombineIsBijection` | diceGame.js:99 | for a fixed secret, combining is one-to-one and onto [0, range), with `Uncombine` as its inverse, so neither side alone decides the result |
| `FairRandom.Combine` | diceGame.js:99 | the final number is below range; for operands below range it is their sum, less range when the sum reaches range |
| `FairRandom.ExchangeOutcome` | diceGame.js:91-105 | a run ends in a number iff the answer was accepted, in an exit iff it was "X", and the number is below range |
| `FairRandom.ExchangeTrace` | diceGame.js:91-105 | the console output of one run starts with the commitment of the key and secret, then the prompt |
| `FairRandom.RefusedAnswerTrace` | diceGame.js:75-83 | after "X" nothing follows the prompt; a refused answer's output ends with "Invalid input." (a 3-event run, or 5 after "?"), and "Invalid input." appears iff the answer was refused; "?" puts the help text and a second prompt right after the first prompt |
| `FairRandom.CommitmentComesFirst` | diceGame.js:94-98 | the commitment is written first, the prompt right after it, and no other commitment appears |
| `FairRandom.DisclosureOnlyAfterAcceptance` | diceGame.js:96-102 | the secret or key appears iff the answer was accepted, and never before the commitment and the prompt |
| `FairRandom.DisclosedValuesVerify` | diceGame.js:94-102 | after acceptance, the HMAC of the shown number under the shown key equals the shown commitment; the shown number reads back as the secret and the key decodes to the drawn bytes |
| `FairRandom.ExampleRuns` | diceGame.js:99 | range 6, secret 3, answer "4" give 1; range 2, secret 1, answer "1" give 0 |
| `FairRandom.HelpExample` | diceGame.js:76-84 | "?" is refused, after the help text, a second prompt and "Invalid input." |
| `Game.MaxOf` | diceGame.js:121 | Math.max of the rolls is one of them and at least every one |
| `Game.IndexOf` | diceGame.js:121 | indexOf is -1 iff the value is absent, else the first index holding it |
| `Game.Winner` | diceGame.js:121 | the winner index is -1 exactly when there are no rolls, otherwise an index of the rolls |
| `Game.WinnerIsFirstMaximum` | diceGame.js:120-121 | the winner index is in range, its roll is at least every roll, and every earlier roll is strictly smaller |
| `Game.FirstMaximumIsUnique` | diceGame.js:121 | any index with the first-maximum property is the winner |
| `Game.Rolls` | diceGame.js:120 | one roll per die, each one of that die's faces |
| `Game.Play` | diceGame.js:113-125 | play runs the exchange with range = number of dice; on success the die index is the final number, below the dice count, and the winner is the first maximum of the rolls; otherwise nothing is rolled |

## Left out

- `crypto.randomBytes`, `crypto.randomInt` and HMAC over SHA3-256 (RFC 2104 section 2, FIPS 202): these are library calls. They are parameters here, with only their ranges assumed. Uniformity, unpredictability and collision resistance are not modelled.
- `readline`, `console.log`, `process.exit` and the `async`/`Promise` machinery: these are I/O. Console output is an event log. The game's own lines ("start the game...", "you will use dice N", "Rolls: ...", "winner: dice N") are not logged. Exit is a halted run or an outcome value. The readline handle that the re-prompt for "?" leaves open is not modelled.
- `ProbabilituCalc` (`calculateProbability`, `showProbabilities`): a Monte Carlo estimate over random rolls, with float division and `toFixed` formatting.
- `main`: no logic beyond the argument-count check, parsing, the probability table and `play`. Its guarantee of at least two dice is the `range > 0` requirement of the exchange and the `|dice| > 0` requirement of `Play`.
- `JsNumbers.ToNumber`: `Number()` is modelled for blank fields, signed decimal integers and unsigned `0x`/`0o`/`0b` integers. Fractional, exponent and `Infinity` literals (`"1.5"`, `"1e3"`) are numbers in JavaScript but NaN here. So `DiceParser.Parse` refuses some argument lists that JavaScript accepts.
- `JsNumbers.ToNumber`: dice fields beyond 2^53 are exact integers here, but JavaScript rounds them to the nearest double. For such faces the rolls, and so `Game.Winner` and `Game.Play`, can differ from the program's: fields of 9007199254740992 and 9007199254740993 are equal in JavaScript and different here. `ToNumberOfIntToString`, `ParseFormatted` and `ParseFormattedArgs` are stated only for magnitudes up to 2^53 for this reason.
- `JsNumbers.Decimal` and `JsNumbers.IntToString`: JavaScript's `toString` writes numbers of magnitude 10^21 and above in exponent notation, which these plain digit strings do not model. The secret is below the dice count, and dice faces that large are already rounded by Number(), as the line above says.
- `JsNumbers.ParseInt`: values are exact integers. JavaScript rounds numerals beyond 2^53, but that does not change any comparison with a range of dice counts.
- `Game.Winner`: a NaN roll is not modelled, because parsing refuses NaN faces.
- task2.js: a stand-alone script that hashes the files of a fixed directory. It is outside the game.
