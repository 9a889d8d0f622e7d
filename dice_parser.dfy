/** DiceParser: each command-line argument is one die, its six faces separated by commas. */
module DiceParser {
  import opened Wrappers
  import opened JsStrings
  import opened JsNumbers
  import opened Dice

  const FacesPerDie := 6
  const FormatError := "Invalid dice format. Provide comma separated integers."

  /** `arg.split(",").map(Number)`. */
  function Fields(arg: string): (nums: seq<JsNumber>)
    ensures |nums| == |Split(arg, ',')|
    ensures forall i :: 0 <= i < |nums| ==> nums[i] == ToNumber(Split(arg, ',')[i])
  {
    var pieces := Split(arg, ',');
    seq(|pieces|, i requires 0 <= i < |pieces| => ToNumber(pieces[i]))
  }

  /** Exactly six fields, none of them NaN. */
  predicate WellFormed(arg: string): (ok: bool)
    ensures ok ==> Count(arg, ',') == FacesPerDie - 1
  {
    SplitShape(arg, ',');
    var nums := Fields(arg);
    |nums| == FacesPerDie && forall i :: 0 <= i < |nums| ==> nums[i].Num?
  }

  /** One argument: a die with the six converted fields as faces, or nothing when the argument
      has another number of fields or a field that is not a number. */
  function ParseDie(arg: string): (r: Option<Die>)
    ensures r.Some? <==> WellFormed(arg)
    ensures r.Some? ==> |r.value.faces| == FacesPerDie
    ensures r.Some? ==> forall i :: 0 <= i < FacesPerDie ==> Num(r.value.faces[i]) == Fields(arg)[i]
  {
    var nums := Fields(arg);
    if |nums| != FacesPerDie || exists i :: 0 <= i < |nums| && nums[i].NaN? then None
    else Some(Die(seq(|nums|, i requires 0 <= i < |nums| => nums[i].value)))
  }

  /** DiceParser.parse: one die per argument, in order; the first malformed argument throws. */
  function Parse(args: seq<string>): (r: Result<seq<Die>, string>)
    ensures r.Success? <==> forall i :: 0 <= i < |args| ==> WellFormed(args[i])
    ensures r.Success? ==> |r.value| == |args|
    ensures r.Success? ==> forall i :: 0 <= i < |args| ==> ParseDie(args[i]) == Some(r.value[i])
    ensures r.Failure? ==> r.error == FormatError
  {
    if |args| == 0 then Success([])
    else
      match ParseDie(args[0])
      case None => Failure(FormatError)
      case Some(d) =>
        match Parse(args[1..])
        case Failure(e) => Failure(e)
        case Success(rest) => Success([d] + rest)
  }

  /** Six integers written out in decimal and joined with commas: the format the error message asks for. */
  function FormatDie(faces: seq<int>): string {
    Join(seq(|faces|, i requires 0 <= i < |faces| => IntToString(faces[i])), ',')
  }

  lemma NoCommaInIntToString(x: int)
    ensures ',' !in IntToString(x)
  {
    if x < 0 {
      var s := IntToString(x);
      var d := Decimal(-x);
      assert forall i :: 0 < i < |s| ==> s[i] == d[i - 1];
    }
  }

  /** Faces that JavaScript's numbers hold exactly: magnitude at most 2^53. */
  predicate ExactFaces(faces: seq<int>) {
    forall i :: 0 <= i < |faces| ==> -ExactLimit <= faces[i] <= ExactLimit
  }

  /** Any six exactly representable integers, written as comma-separated decimals, parse back into
      a die with exactly those faces. */
  lemma ParseFormatted(faces: seq<int>)
    requires |faces| == FacesPerDie && ExactFaces(faces)
    ensures ParseDie(FormatDie(faces)) == Some(Die(faces))
  {
    var texts := seq(|faces|, i requires 0 <= i < |faces| => IntToString(faces[i]));
    forall i | 0 <= i < |texts|
      ensures ',' !in texts[i] && ToNumber(texts[i]) == Num(faces[i])
    {
      NoCommaInIntToString(faces[i]);
      ToNumberOfIntToString(faces[i]);
    }
    SplitJoin(texts, ',');
    var r := ParseDie(FormatDie(faces));
    assert r.Some?;
    assert r.value.faces == faces;
  }

  /** A whole argument list of formatted dice parses into those dice, in order. */
  lemma {:induction false} ParseFormattedArgs(dice: seq<Die>)
    requires forall i :: 0 <= i < |dice| ==> |dice[i].faces| == FacesPerDie && ExactFaces(dice[i].faces)
    ensures Parse(seq(|dice|, i requires 0 <= i < |dice| => FormatDie(dice[i].faces))) == Success(dice)
  {
    var args := seq(|dice|, i requires 0 <= i < |dice| => FormatDie(dice[i].faces));
    forall i | 0 <= i < |dice|
      ensures ParseDie(args[i]) == Some(dice[i])
    {
      ParseFormatted(dice[i].faces);
    }
    var r := Parse(args);
    assert r.Success?;
    assert r.value == dice;
  }

  /** A die with one field too few or too many is refused, whatever its fields hold. */
  lemma WrongFieldCountFails(args: seq<string>, k: nat)
    requires k < |args| && Count(args[k], ',') != FacesPerDie - 1
    ensures Parse(args) == Failure(FormatError)
  {
    SplitShape(args[k], ',');
    assert !WellFormed(args[k]);
  }
}
