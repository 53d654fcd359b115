/**
 * The Enigma reflector (`src/key/enigma/reflector.rs`): one of five fixed
 * wirings that pair the 26 letters off, so that no letter is sent to itself
 * and a reflected letter reflects back to where it came from.
 */
module Reflectors {
  import opened Wrappers
  import opened Errors
  import opened Util
  import Rotors

  datatype ReflectorType = A | B | C | BThin | CThin

  /** The enum's discriminant. */
  function Index(t: ReflectorType): (r: nat)
    ensures r < 5
  {
    match t
    case A => 0
    case B => 1
    case C => 2
    case BThin => 3
    case CThin => 4
  }

  /** `From<usize>`: 0 to 3 select A, B, C and B thin; every other number selects C thin. */
  function FromIndex(n: nat): (t: ReflectorType)
    ensures n < 5 ==> Index(t) == n
    ensures n >= 5 ==> t == CThin
  {
    if n == 0 then A
    else if n == 1 then B
    else if n == 2 then C
    else if n == 3 then BThin
    else CThin
  }

  /** Converting a type's discriminant back gives the type. */
  lemma FromIndexRoundTrip(t: ReflectorType)
    ensures FromIndex(Index(t)) == t
  {
  }

  /** `WIRINGS[t][x]`: the letter the reflector sends letter `x` to. */
  function WiringAt(t: ReflectorType, x: int): int {
    match t
    case A => WiringA(x)
    case B => WiringB(x)
    case C => WiringC(x)
    case BThin => WiringBThin(x)
    case CThin => WiringCThin(x)
  }

  /** Row A of `WIRINGS`. */
  function WiringA(x: int): int {
    match x
    case 0 => 4
    case 1 => 9
    case 2 => 12
    case 3 => 25
    case 4 => 0
    case 5 => 11
    case 6 => 24
    case 7 => 23
    case 8 => 21
    case 9 => 1
    case 10 => 22
    case 11 => 5
    case 12 => 2
    case 13 => 17
    case 14 => 16
    case 15 => 20
    case 16 => 14
    case 17 => 13
    case 18 => 19
    case 19 => 18
    case 20 => 15
    case 21 => 8
    case 22 => 10
    case 23 => 7
    case 24 => 6
    case 25 => 3
    case _ => 0
  }

  /** Row B of `WIRINGS`. */
  function WiringB(x: int): int {
    match x
    case 0 => 24
    case 1 => 17
    case 2 => 20
    case 3 => 7
    case 4 => 16
    case 5 => 18
    case 6 => 11
    case 7 => 3
    case 8 => 15
    case 9 => 23
    case 10 => 13
    case 11 => 6
    case 12 => 14
    case 13 => 10
    case 14 => 12
    case 15 => 8
    case 16 => 4
    case 17 => 1
    case 18 => 5
    case 19 => 25
    case 20 => 2
    case 21 => 22
    case 22 => 21
    case 23 => 9
    case 24 => 0
    case 25 => 19
    case _ => 0
  }

  /** Row C of `WIRINGS`. */
  function WiringC(x: int): int {
    match x
    case 0 => 5
    case 1 => 21
    case 2 => 15
    case 3 => 9
    case 4 => 8
    case 5 => 0
    case 6 => 14
    case 7 => 24
    case 8 => 4
    case 9 => 3
    case 10 => 17
    case 11 => 25
    case 12 => 23
    case 13 => 22
    case 14 => 6
    case 15 => 2
    case 16 => 19
    case 17 => 10
    case 18 => 20
    case 19 => 16
    case 20 => 18
    case 21 => 1
    case 22 => 13
    case 23 => 12
    case 24 => 7
    case 25 => 11
    case _ => 0
  }

  /** Row BThin of `WIRINGS`. */
  function WiringBThin(x: int): int {
    match x
    case 0 => 4
    case 1 => 13
    case 2 => 10
    case 3 => 16
    case 4 => 0
    case 5 => 20
    case 6 => 24
    case 7 => 22
    case 8 => 9
    case 9 => 8
    case 10 => 2
    case 11 => 14
    case 12 => 15
    case 13 => 1
    case 14 => 11
    case 15 => 12
    case 16 => 3
    case 17 => 23
    case 18 => 25
    case 19 => 21
    case 20 => 5
    case 21 => 19
    case 22 => 7
    case 23 => 17
    case 24 => 6
    case 25 => 18
    case _ => 0
  }

  /** Row CThin of `WIRINGS`. */
  function WiringCThin(x: int): int {
    match x
    case 0 => 17
    case 1 => 3
    case 2 => 14
    case 3 => 1
    case 4 => 9
    case 5 => 13
    case 6 => 19
    case 7 => 10
    case 8 => 21
    case 9 => 4
    case 10 => 7
    case 11 => 12
    case 12 => 11
    case 13 => 5
    case 14 => 2
    case 15 => 22
    case 16 => 25
    case 17 => 0
    case 18 => 23
    case 19 => 6
    case 20 => 24
    case 21 => 8
    case 22 => 15
    case 23 => 18
    case 24 => 20
    case 25 => 16
    case _ => 0
  }

  lemma WiringAReciprocal()
    ensures forall x :: 0 <= x < 26 ==> 0 <= WiringA(x) < 26 && WiringA(x) != x && WiringA(WiringA(x)) == x
  {
    forall x | 0 <= x < 26 ensures 0 <= WiringA(x) < 26 && WiringA(x) != x && WiringA(WiringA(x)) == x {
      Rotors.LetterCases(x);
    }
  }

  lemma WiringBReciprocal()
    ensures forall x :: 0 <= x < 26 ==> 0 <= WiringB(x) < 26 && WiringB(x) != x && WiringB(WiringB(x)) == x
  {
    forall x | 0 <= x < 26 ensures 0 <= WiringB(x) < 26 && WiringB(x) != x && WiringB(WiringB(x)) == x {
      Rotors.LetterCases(x);
    }
  }

  lemma WiringCReciprocal()
    ensures forall x :: 0 <= x < 26 ==> 0 <= WiringC(x) < 26 && WiringC(x) != x && WiringC(WiringC(x)) == x
  {
    forall x | 0 <= x < 26 ensures 0 <= WiringC(x) < 26 && WiringC(x) != x && WiringC(WiringC(x)) == x {
      Rotors.LetterCases(x);
    }
  }

  lemma WiringBThinReciprocal()
    ensures forall x :: 0 <= x < 26 ==> 0 <= WiringBThin(x) < 26 && WiringBThin(x) != x && WiringBThin(WiringBThin(x)) == x
  {
    forall x | 0 <= x < 26 ensures 0 <= WiringBThin(x) < 26 && WiringBThin(x) != x && WiringBThin(WiringBThin(x)) == x {
      Rotors.LetterCases(x);
    }
  }

  lemma WiringCThinReciprocal()
    ensures forall x :: 0 <= x < 26 ==> 0 <= WiringCThin(x) < 26 && WiringCThin(x) != x && WiringCThin(WiringCThin(x)) == x
  {
    forall x | 0 <= x < 26 ensures 0 <= WiringCThin(x) < 26 && WiringCThin(x) != x && WiringCThin(WiringCThin(x)) == x {
      Rotors.LetterCases(x);
    }
  }

  /** Row `t` swaps the 26 letters in pairs: it undoes itself and moves every letter. */
  predicate Reciprocal(t: ReflectorType) {
    forall x :: 0 <= x < 26 ==> 0 <= WiringAt(t, x) < 26 && WiringAt(t, x) != x && WiringAt(t, WiringAt(t, x)) == x
  }

  /** Every reflector pairs the letters off. */
  lemma TablesReciprocal(t: ReflectorType)
    ensures Reciprocal(t)
  {
    match t
    case A => WiringAReciprocal();
    case B => WiringBReciprocal();
    case C => WiringCReciprocal();
    case BThin => WiringBThinReciprocal();
    case CThin => WiringCThinReciprocal();
  }

  /** `input`: the letter the wiring pairs with `letter`, which is another letter and reflects back. */
  function Reflect(t: ReflectorType, letter: int): (r: int)
    requires 0 <= letter < 26
    ensures 0 <= r < 26 && r != letter && WiringAt(t, r) == letter
  {
    TablesReciprocal(t);
    WiringAt(t, letter)
  }

  /** Reflecting twice gives the letter back. */
  lemma ReflectTwice(t: ReflectorType, letter: int)
    requires 0 <= letter < 26
    ensures Reflect(t, Reflect(t, letter)) == letter
  {
  }

  /** The `expected` text of the error `set` returns for an unknown reflector. */
  const ReflectorChoices: string := "One of [a, b, c, bthin, cthin]"

  /** The lower-case name of each reflector type. */
  function Name(t: ReflectorType): string {
    match t
    case A => "a"
    case B => "b"
    case C => "c"
    case BThin => "bthin"
    case CThin => "cthin"
  }

  /** The lower-case names `set` matches. */
  function TypeOfName(name: string): (r: Option<ReflectorType>)
  {
    if name == "a" then Some(A)
    else if name == "b" then Some(B)
    else if name == "c" then Some(C)
    else if name == "bthin" then Some(BThin)
    else if name == "cthin" then Some(CThin)
    else None
  }

  /** A name is matched exactly when it is the name of the type it selects. */
  lemma TypeOfNameIff(name: string, t: ReflectorType)
    ensures TypeOfName(name) == Some(t) <==> name == Name(t)
  {
  }

  /** `set` with text: the lowered argument selects the type; anything else is refused. */
  function ParseReflectorType(arg: string): (r: Result<ReflectorType, Error>)
    ensures r.Success? <==> exists t: ReflectorType :: Lowered(arg) == Name(t)
    ensures r.Success? ==> Lowered(arg) == Name(r.value)
    ensures r.Failure? ==> r.error == InvalidKeyFmt(ReflectorChoices, arg)
  {
    match TypeOfName(Lowered(arg))
    case Some(t) =>
      TypeOfNameIff(Lowered(arg), t);
      Success(t)
    case None =>
      assert forall t: ReflectorType :: Lowered(arg) != Name(t) by {
        forall t: ReflectorType ensures Lowered(arg) != Name(t) {
          TypeOfNameIff(Lowered(arg), t);
        }
      }
      Failure(InvalidKeyFmt(ReflectorChoices, arg))
  }

  /** Every name, in any mix of case, selects its reflector. */
  lemma ParseNames(t: ReflectorType, arg: string)
    requires Lowered(arg) == Name(t)
    ensures ParseReflectorType(arg) == Success(t)
  {
    TypeOfNameIff(Lowered(arg), t);
  }

  /** "BThin" selects the thin B reflector; the display name "B thin" is refused. */
  lemma ParseExamples()
    ensures ParseReflectorType("BThin") == Success(BThin)
    ensures ParseReflectorType("B thin").Failure?
  {
    assert Lowered("BThin") == "bthin";
    ParseNames(BThin, "BThin");
    assert Lowered("B thin") == "b thin";
  }

  class Reflector {
    var wiringType: ReflectorType

    /** `new` with a reflector type. */
    constructor (t: ReflectorType)
      ensures wiringType == t
    {
      wiringType := t;
    }

    /** `Clone`: a fresh reflector of the same type. */
    method Clone() returns (c: Reflector)
      ensures fresh(c) && c.wiringType == wiringType
    {
      c := new Reflector(wiringType);
    }

    /** `new` with text: reflector B, then `set` with the text, failing as it fails. */
    static method FromString(arg: string) returns (r: Result<Reflector, Error>)
      ensures ParseReflectorType(arg).Failure? ==> r == Failure(ParseReflectorType(arg).error)
      ensures ParseReflectorType(arg).Success? ==> r.Success? && fresh(r.value)
      ensures r.Success? ==> r.value.wiringType == ParseReflectorType(arg).value
    {
      var reflector := new Reflector(B);
      var outcome := reflector.Set(arg);
      match outcome {
        case Pass => r := Success(reflector);
        case Fail(e) => r := Failure(e);
      }
    }

    /** `input`: the `usize` index demands a letter below 26. */
    function Input(letter: int): (r: int)
      reads this
      requires 0 <= letter < 26
      ensures 0 <= r < 26 && r != letter
    {
      Reflect(wiringType, letter)
    }

    /** `set` with a reflector type. */
    method SetType(t: ReflectorType)
      modifies this
      ensures wiringType == t
    {
      wiringType := t;
    }

    /** `set` with text: on a known name the type changes, on any other text nothing changes. */
    method Set(arg: string) returns (r: Outcome<Error>)
      modifies this
      ensures ParseReflectorType(arg).Success? ==> r == Pass && wiringType == ParseReflectorType(arg).value
      ensures ParseReflectorType(arg).Failure? ==> r == Fail(ParseReflectorType(arg).error) && wiringType == old(wiringType)
    {
      match ParseReflectorType(arg) {
        case Success(t) =>
          wiringType := t;
          r := Pass;
        case Failure(e) =>
          r := Fail(e);
      }
    }

    /** `reset`: reflector B. */
    method Reset()
      modifies this
      ensures wiringType == B
    {
      wiringType := B;
    }

    /** `randomize`: `draw` stands for `fastrand::usize(0..5)`. */
    method Randomize(draw: nat)
      requires draw < 5
      modifies this
      ensures wiringType == FromIndex(draw) && Index(wiringType) == draw
    {
      wiringType := FromIndex(draw);
    }
  }
}
