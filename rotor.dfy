/**
 * An Enigma rotor (`src/key/enigma/rotor.rs`): one of ten wirings, an outer
 * position (`grund`) that advances as the machine steps, and a fixed inner
 * ring setting (`rings`). A letter passes through the wiring shifted by the
 * difference of the two positions, forward through `WIRINGS` or back
 * through `INV_WIRINGS`, and each backward pass undoes the forward one.
 */
module Rotors {
  import opened Wrappers
  import opened Errors
  import opened Arith
  import opened Util

  datatype RotorType = I | II | III | IV | V | VI | VII | VIII | Beta | Gamma

  /** The enum's discriminant. */
  function Index(t: RotorType): (r: nat)
    ensures r < 10
  {
    match t
    case I => 0
    case II => 1
    case III => 2
    case IV => 3
    case V => 4
    case VI => 5
    case VII => 6
    case VIII => 7
    case Beta => 8
    case Gamma => 9
  }

  /** The wiring types are told apart by their rows. */
  lemma IndexInjective(s: RotorType, t: RotorType)
    ensures Index(s) == Index(t) <==> s == t
  {
  }

  /**
   * `Standard`'s `sample`: a draw of `gen_range(0..8)` picks I to VIII;
   * Beta and Gamma are never drawn.
   */
  function FromDraw(draw: int): (t: RotorType)
    ensures t != Beta && t != Gamma
    ensures 0 <= draw < 8 ==> Index(t) == draw
  {
    if draw == 0 then I
    else if draw == 1 then II
    else if draw == 2 then III
    else if draw == 3 then IV
    else if draw == 4 then V
    else if draw == 5 then VI
    else if draw == 6 then VII
    else VIII
  }

  /** `WIRINGS[t][x]`: where the rotor sends position `x` on the forward pass. */
  function WiringAt(t: RotorType, x: int): int {
    match t
    case I => WiringI(x)
    case II => WiringII(x)
    case III => WiringIII(x)
    case IV => WiringIV(x)
    case V => WiringV(x)
    case VI => WiringVI(x)
    case VII => WiringVII(x)
    case VIII => WiringVIII(x)
    case Beta => WiringBeta(x)
    case Gamma => WiringGamma(x)
  }

  /** `INV_WIRINGS[t][x]`: where the rotor sends position `x` on the backward pass. */
  function InvWiringAt(t: RotorType, x: int): int {
    match t
    case I => InvWiringI(x)
    case II => InvWiringII(x)
    case III => InvWiringIII(x)
    case IV => InvWiringIV(x)
    case V => InvWiringV(x)
    case VI => InvWiringVI(x)
    case VII => InvWiringVII(x)
    case VIII => InvWiringVIII(x)
    case Beta => InvWiringBeta(x)
    case Gamma => InvWiringGamma(x)
  }

  /** Row I of `WIRINGS`. */
  function WiringI(x: int): int {
    match x
    case 0 => 4
    case 1 => 10
    case 2 => 12
    case 3 => 5
    case 4 => 11
    case 5 => 6
    case 6 => 3
    case 7 => 16
    case 8 => 21
    case 9 => 25
    case 10 => 13
    case 11 => 19
    case 12 => 14
    case 13 => 22
    case 14 => 24
    case 15 => 7
    case 16 => 23
    case 17 => 20
    case 18 => 18
    case 19 => 15
    case 20 => 0
    case 21 => 8
    case 22 => 1
    case 23 => 17
    case 24 => 2
    case 25 => 9
    case _ => 0
  }

  /** Row II of `WIRINGS`. */
  function WiringII(x: int): int {
    match x
    case 0 => 0
    case 1 => 9
    case 2 => 3
    case 3 => 10
    case 4 => 18
    case 5 => 8
    case 6 => 17
    case 7 => 20
    case 8 => 23
    case 9 => 1
    case 10 => 11
    case 11 => 7
    case 12 => 22
    case 13 => 19
    case 14 => 12
    case 15 => 2
    case 16 => 16
    case 17 => 6
    case 18 => 25
    case 19 => 13
    case 20 => 15
    case 21 => 24
    case 22 => 5
    case 23 => 21
    case 24 => 14
    case 25 => 4
    case _ => 0
  }

  /** Row III of `WIRINGS`. */
  function WiringIII(x: int): int {
    match x
    case 0 => 1
    case 1 => 3
    case 2 => 5
    case 3 => 7
    case 4 => 9
    case 5 => 11
    case 6 => 2
    case 7 => 15
    case 8 => 17
    case 9 => 19
    case 10 => 23
    case 11 => 21
    case 12 => 25
    case 13 => 13
    case 14 => 24
    case 15 => 4
    case 16 => 8
    case 17 => 22
    case 18 => 6
    case 19 => 0
    case 20 => 10
    case 21 => 12
    case 22 => 20
    case 23 => 18
    case 24 => 16
    case 25 => 14
    case _ => 0
  }

  /** Row IV of `WIRINGS`. */
  function WiringIV(x: int): int {
    match x
    case 0 => 4
    case 1 => 18
    case 2 => 14
    case 3 => 21
    case 4 => 15
    case 5 => 25
    case 6 => 9
    case 7 => 0
    case 8 => 24
    case 9 => 16
    case 10 => 20
    case 11 => 8
    case 12 => 17
    case 13 => 7
    case 14 => 23
    case 15 => 11
    case 16 => 13
    case 17 => 5
    case 18 => 19
    case 19 => 6
    case 20 => 10
    case 21 => 3
    case 22 => 2
    case 23 => 12
    case 24 => 22
    case 25 => 1
    case _ => 0
  }

  /** Row V of `WIRINGS`. */
  function WiringV(x: int): int {
    match x
    case 0 => 21
    case 1 => 25
    case 2 => 1
    case 3 => 17
    case 4 => 6
    case 5 => 8
    case 6 => 19
    case 7 => 24
    case 8 => 20
    case 9 => 15
    case 10 => 18
    case 11 => 3
    case 12 => 13
    case 13 => 7
    case 14 => 11
    case 15 => 23
    case 16 => 0
    case 17 => 22
    case 18 => 12
    case 19 => 9
    case 20 => 16
    case 21 => 14
    case 22 => 5
    case 23 => 4
    case 24 => 2
    case 25 => 10
    case _ => 0
  }

  /** Row VI of `WIRINGS`. */
  function WiringVI(x: int): int {
    match x
    case 0 => 9
    case 1 => 15
    case 2 => 6
    case 3 => 21
    case 4 => 14
    case 5 => 20
    case 6 => 12
    case 7 => 5
    case 8 => 24
    case 9 => 16
    case 10 => 1
    case 11 => 4
    case 12 => 13
    case 13 => 7
    case 14 => 25
    case 15 => 17
    case 16 => 3
    case 17 => 10
    case 18 => 0
    case 19 => 18
    case 20 => 23
    case 21 => 11
    case 22 => 8
    case 23 => 2
    case 24 => 19
    case 25 => 22
    case _ => 0
  }

  /** Row VII of `WIRINGS`. */
  function WiringVII(x: int): int {
    match x
    case 0 => 13
    case 1 => 25
    case 2 => 9
    case 3 => 7
    case 4 => 6
    case 5 => 17
    case 6 => 2
    case 7 => 23
    case 8 => 12
    case 9 => 24
    case 10 => 18
    case 11 => 22
    case 12 => 1
    case 13 => 14
    case 14 => 20
    case 15 => 5
    case 16 => 0
    case 17 => 8
    case 18 => 21
    case 19 => 11
    case 20 => 15
    case 21 => 4
    case 22 => 10
    case 23 => 16
    case 24 => 3
    case 25 => 19
    case _ => 0
  }

  /** Row VIII of `WIRINGS`. */
  function WiringVIII(x: int): int {
    match x
    case 0 => 5
    case 1 => 10
    case 2 => 16
    case 3 => 7
    case 4 => 19
    case 5 => 11
    case 6 => 23
    case 7 => 14
    case 8 => 2
    case 9 => 1
    case 10 => 9
    case 11 => 18
    case 12 => 15
    case 13 => 3
    case 14 => 25
    case 15 => 17
    case 16 => 0
    case 17 => 12
    case 18 => 4
    case 19 => 22
    case 20 => 13
    case 21 => 8
    case 22 => 20
    case 23 => 24
    case 24 => 6
    case 25 => 21
    case _ => 0
  }

  /** Row Beta of `WIRINGS`. */
  function WiringBeta(x: int): int {
    match x
    case 0 => 11
    case 1 => 4
    case 2 => 24
    case 3 => 9
    case 4 => 21
    case 5 => 2
    case 6 => 13
    case 7 => 8
    case 8 => 23
    case 9 => 22
    case 10 => 15
    case 11 => 1
    case 12 => 16
    case 13 => 12
    case 14 => 3
    case 15 => 17
    case 16 => 19
    case 17 => 0
    case 18 => 10
    case 19 => 25
    case 20 => 6
    case 21 => 5
    case 22 => 20
    case 23 => 7
    case 24 => 14
    case 25 => 18
    case _ => 0
  }

  /** Row Gamma of `WIRINGS`. */
  function WiringGamma(x: int): int {
    match x
    case 0 => 5
    case 1 => 18
    case 2 => 14
    case 3 => 10
    case 4 => 0
    case 5 => 13
    case 6 => 20
    case 7 => 4
    case 8 => 17
    case 9 => 7
    case 10 => 12
    case 11 => 1
    case 12 => 19
    case 13 => 8
    case 14 => 24
    case 15 => 2
    case 16 => 22
    case 17 => 11
    case 18 => 16
    case 19 => 15
    case 20 => 25
    case 21 => 23
    case 22 => 21
    case 23 => 6
    case 24 => 9
    case 25 => 3
    case _ => 0
  }

  /** Row I of `INV_WIRINGS`. */
  function InvWiringI(x: int): int {
    match x
    case 0 => 20
    case 1 => 22
    case 2 => 24
    case 3 => 6
    case 4 => 0
    case 5 => 3
    case 6 => 5
    case 7 => 15
    case 8 => 21
    case 9 => 25
    case 10 => 1
    case 11 => 4
    case 12 => 2
    case 13 => 10
    case 14 => 12
    case 15 => 19
    case 16 => 7
    case 17 => 23
    case 18 => 18
    case 19 => 11
    case 20 => 17
    case 21 => 8
    case 22 => 13
    case 23 => 16
    case 24 => 14
    case 25 => 9
    case _ => 0
  }

  /** Row II of `INV_WIRINGS`. */
  function InvWiringII(x: int): int {
    match x
    case 0 => 0
    case 1 => 9
    case 2 => 15
    case 3 => 2
    case 4 => 25
    case 5 => 22
    case 6 => 17
    case 7 => 11
    case 8 => 5
    case 9 => 1
    case 10 => 3
    case 11 => 10
    case 12 => 14
    case 13 => 19
    case 14 => 24
    case 15 => 20
    case 16 => 16
    case 17 => 6
    case 18 => 4
    case 19 => 13
    case 20 => 7
    case 21 => 23
    case 22 => 12
    case 23 => 8
    case 24 => 21
    case 25 => 18
    case _ => 0
  }

  /** Row III of `INV_WIRINGS`. */
  function InvWiringIII(x: int): int {
    match x
    case 0 => 19
    case 1 => 0
    case 2 => 6
    case 3 => 1
    case 4 => 15
    case 5 => 2
    case 6 => 18
    case 7 => 3
    case 8 => 16
    case 9 => 4
    case 10 => 20
    case 11 => 5
    case 12 => 21
    case 13 => 13
    case 14 => 25
    case 15 => 7
    case 16 => 24
    case 17 => 8
    case 18 => 23
    case 19 => 9
    case 20 => 22
    case 21 => 11
    case 22 => 17
    case 23 => 10
    case 24 => 14
    case 25 => 12
    case _ => 0
  }

  /** Row IV of `INV_WIRINGS`. */
  function InvWiringIV(x: int): int {
    match x
    case 0 => 7
    case 1 => 25
    case 2 => 22
    case 3 => 21
    case 4 => 0
    case 5 => 17
    case 6 => 19
    case 7 => 13
    case 8 => 11
    case 9 => 6
    case 10 => 20
    case 11 => 15
    case 12 => 23
    case 13 => 16
    case 14 => 2
    case 15 => 4
    case 16 => 9
    case 17 => 12
    case 18 => 1
    case 19 => 18
    case 20 => 10
    case 21 => 3
    case 22 => 24
    case 23 => 14
    case 24 => 8
    case 25 => 5
    case _ => 0
  }

  /** Row V of `INV_WIRINGS`. */
  function InvWiringV(x: int): int {
    match x
    case 0 => 16
    case 1 => 2
    case 2 => 24
    case 3 => 11
    case 4 => 23
    case 5 => 22
    case 6 => 4
    case 7 => 13
    case 8 => 5
    case 9 => 19
    case 10 => 25
    case 11 => 14
    case 12 => 18
    case 13 => 12
    case 14 => 21
    case 15 => 9
    case 16 => 20
    case 17 => 3
    case 18 => 10
    case 19 => 6
    case 20 => 8
    case 21 => 0
    case 22 => 17
    case 23 => 15
    case 24 => 7
    case 25 => 1
    case _ => 0
  }

  /** Row VI of `INV_WIRINGS`. */
  function InvWiringVI(x: int): int {
    match x
    case 0 => 18
    case 1 => 10
    case 2 => 23
    case 3 => 16
    case 4 => 11
    case 5 => 7
    case 6 => 2
    case 7 => 13
    case 8 => 22
    case 9 => 0
    case 10 => 17
    case 11 => 21
    case 12 => 6
    case 13 => 12
    case 14 => 4
    case 15 => 1
    case 16 => 9
    case 17 => 15
    case 18 => 19
    case 19 => 24
    case 20 => 5
    case 21 => 3
    case 22 => 25
    case 23 => 20
    case 24 => 8
    case 25 => 14
    case _ => 0
  }

  /** Row VII of `INV_WIRINGS`. */
  function InvWiringVII(x: int): int {
    match x
    case 0 => 16
    case 1 => 12
    case 2 => 6
    case 3 => 24
    case 4 => 21
    case 5 => 15
    case 6 => 4
    case 7 => 3
    case 8 => 17
    case 9 => 2
    case 10 => 22
    case 11 => 19
    case 12 => 8
    case 13 => 0
    case 14 => 13
    case 15 => 20
    case 16 => 23
    case 17 => 5
    case 18 => 10
    case 19 => 25
    case 20 => 14
    case 21 => 18
    case 22 => 11
    case 23 => 7
    case 24 => 9
    case 25 => 1
    case _ => 0
  }

  /** Row VIII of `INV_WIRINGS`. */
  function InvWiringVIII(x: int): int {
    match x
    case 0 => 16
    case 1 => 9
    case 2 => 8
    case 3 => 13
    case 4 => 18
    case 5 => 0
    case 6 => 24
    case 7 => 3
    case 8 => 21
    case 9 => 10
    case 10 => 1
    case 11 => 5
    case 12 => 17
    case 13 => 20
    case 14 => 7
    case 15 => 12
    case 16 => 2
    case 17 => 15
    case 18 => 11
    case 19 => 4
    case 20 => 22
    case 21 => 25
    case 22 => 19
    case 23 => 6
    case 24 => 23
    case 25 => 14
    case _ => 0
  }

  /** Row Beta of `INV_WIRINGS`. */
  function InvWiringBeta(x: int): int {
    match x
    case 0 => 17
    case 1 => 11
    case 2 => 5
    case 3 => 14
    case 4 => 1
    case 5 => 21
    case 6 => 20
    case 7 => 23
    case 8 => 7
    case 9 => 3
    case 10 => 18
    case 11 => 0
    case 12 => 13
    case 13 => 6
    case 14 => 24
    case 15 => 10
    case 16 => 12
    case 17 => 15
    case 18 => 25
    case 19 => 16
    case 20 => 22
    case 21 => 4
    case 22 => 9
    case 23 => 8
    case 24 => 2
    case 25 => 19
    case _ => 0
  }

  /** Row Gamma of `INV_WIRINGS`. */
  function InvWiringGamma(x: int): int {
    match x
    case 0 => 4
    case 1 => 11
    case 2 => 15
    case 3 => 25
    case 4 => 7
    case 5 => 0
    case 6 => 23
    case 7 => 9
    case 8 => 13
    case 9 => 24
    case 10 => 3
    case 11 => 17
    case 12 => 10
    case 13 => 5
    case 14 => 2
    case 15 => 19
    case 16 => 18
    case 17 => 8
    case 18 => 1
    case 19 => 12
    case 20 => 6
    case 21 => 22
    case 22 => 16
    case 23 => 21
    case 24 => 14
    case 25 => 20
    case _ => 0
  }

  /** Row `t` of `NOTCHES`: the outer positions at which the rotor turns its neighbour; -1 for none. */
  function NotchesOf(t: RotorType): seq<int> {
    match t
    case I => [16, 16]
    case II => [4, 4]
    case III => [21, 21]
    case IV => [9, 9]
    case V => [25, 25]
    case VI => [25, 12]
    case VII => [25, 12]
    case VIII => [25, 12]
    case Beta => [-1, -1]
    case Gamma => [-1, -1]
  }

  /** A letter below 26 is one of the 26 constants, so a table can be checked entry by entry. */
  lemma LetterCases(x: int)
    requires 0 <= x < 26
    ensures x == 0 || x == 1 || x == 2 || x == 3 || x == 4 || x == 5 || x == 6 || x == 7 || x == 8
         || x == 9 || x == 10 || x == 11 || x == 12 || x == 13 || x == 14 || x == 15 || x == 16
         || x == 17 || x == 18 || x == 19 || x == 20 || x == 21 || x == 22 || x == 23 || x == 24 || x == 25
  {
  }

  lemma WiringIInverse()
    ensures forall x :: 0 <= x < 26 ==>
      0 <= WiringI(x) < 26 && 0 <= InvWiringI(x) < 26 && InvWiringI(WiringI(x)) == x && WiringI(InvWiringI(x)) == x
  {
    forall x | 0 <= x < 26
      ensures 0 <= WiringI(x) < 26 && 0 <= InvWiringI(x) < 26 && InvWiringI(WiringI(x)) == x && WiringI(InvWiringI(x)) == x
    {
      LetterCases(x);
    }
  }

  lemma WiringIIInverse()
    ensures forall x :: 0 <= x < 26 ==>
      0 <= WiringII(x) < 26 && 0 <= InvWiringII(x) < 26 && InvWiringII(WiringII(x)) == x && WiringII(InvWiringII(x)) == x
  {
    forall x | 0 <= x < 26
      ensures 0 <= WiringII(x) < 26 && 0 <= InvWiringII(x) < 26 && InvWiringII(WiringII(x)) == x && WiringII(InvWiringII(x)) == x
    {
      LetterCases(x);
    }
  }

  lemma WiringIIIInverse()
    ensures forall x :: 0 <= x < 26 ==>
      0 <= WiringIII(x) < 26 && 0 <= InvWiringIII(x) < 26 && InvWiringIII(WiringIII(x)) == x && WiringIII(InvWiringIII(x)) == x
  {
    forall x | 0 <= x < 26
      ensures 0 <= WiringIII(x) < 26 && 0 <= InvWiringIII(x) < 26 && InvWiringIII(WiringIII(x)) == x && WiringIII(InvWiringIII(x)) == x
    {
      LetterCases(x);
    }
  }

  lemma WiringIVInverse()
    ensures forall x :: 0 <= x < 26 ==>
      0 <= WiringIV(x) < 26 && 0 <= InvWiringIV(x) < 26 && InvWiringIV(WiringIV(x)) == x && WiringIV(InvWiringIV(x)) == x
  {
    forall x | 0 <= x < 26
      ensures 0 <= WiringIV(x) < 26 && 0 <= InvWiringIV(x) < 26 && InvWiringIV(WiringIV(x)) == x && WiringIV(InvWiringIV(x)) == x
    {
      LetterCases(x);
    }
  }

  lemma WiringVInverse()
    ensures forall x :: 0 <= x < 26 ==>
      0 <= WiringV(x) < 26 && 0 <= InvWiringV(x) < 26 && InvWiringV(WiringV(x)) == x && WiringV(InvWiringV(x)) == x
  {
    forall x | 0 <= x < 26
      ensures 0 <= WiringV(x) < 26 && 0 <= InvWiringV(x) < 26 && InvWiringV(WiringV(x)) == x && WiringV(InvWiringV(x)) == x
    {
      LetterCases(x);
    }
  }

  lemma WiringVIInverse()
    ensures forall x :: 0 <= x < 26 ==>
      0 <= WiringVI(x) < 26 && 0 <= InvWiringVI(x) < 26 && InvWiringVI(WiringVI(x)) == x && WiringVI(InvWiringVI(x)) == x
  {
    forall x | 0 <= x < 26
      ensures 0 <= WiringVI(x) < 26 && 0 <= InvWiringVI(x) < 26 && InvWiringVI(WiringVI(x)) == x && WiringVI(InvWiringVI(x)) == x
    {
      LetterCases(x);
    }
  }

  lemma WiringVIIInverse()
    ensures forall x :: 0 <= x < 26 ==>
      0 <= WiringVII(x) < 26 && 0 <= InvWiringVII(x) < 26 && InvWiringVII(WiringVII(x)) == x && WiringVII(InvWiringVII(x)) == x
  {
    forall x | 0 <= x < 26
      ensures 0 <= WiringVII(x) < 26 && 0 <= InvWiringVII(x) < 26 && InvWiringVII(WiringVII(x)) == x && WiringVII(InvWiringVII(x)) == x
    {
      LetterCases(x);
    }
  }

  lemma WiringVIIIInverse()
    ensures forall x :: 0 <= x < 26 ==>
      0 <= WiringVIII(x) < 26 && 0 <= InvWiringVIII(x) < 26 && InvWiringVIII(WiringVIII(x)) == x && WiringVIII(InvWiringVIII(x)) == x
  {
    forall x | 0 <= x < 26
      ensures 0 <= WiringVIII(x) < 26 && 0 <= InvWiringVIII(x) < 26 && InvWiringVIII(WiringVIII(x)) == x && WiringVIII(InvWiringVIII(x)) == x
    {
      LetterCases(x);
    }
  }

  lemma WiringBetaInverse()
    ensures forall x :: 0 <= x < 26 ==>
      0 <= WiringBeta(x) < 26 && 0 <= InvWiringBeta(x) < 26 && InvWiringBeta(WiringBeta(x)) == x && WiringBeta(InvWiringBeta(x)) == x
  {
    forall x | 0 <= x < 26
      ensures 0 <= WiringBeta(x) < 26 && 0 <= InvWiringBeta(x) < 26 && InvWiringBeta(WiringBeta(x)) == x && WiringBeta(InvWiringBeta(x)) == x
    {
      LetterCases(x);
    }
  }

  lemma WiringGammaInverse()
    ensures forall x :: 0 <= x < 26 ==>
      0 <= WiringGamma(x) < 26 && 0 <= InvWiringGamma(x) < 26 && InvWiringGamma(WiringGamma(x)) == x && WiringGamma(InvWiringGamma(x)) == x
  {
    forall x | 0 <= x < 26
      ensures 0 <= WiringGamma(x) < 26 && 0 <= InvWiringGamma(x) < 26 && InvWiringGamma(WiringGamma(x)) == x && WiringGamma(InvWiringGamma(x)) == x
    {
      LetterCases(x);
    }
  }

  /**
   * Row `t` of `INV_WIRINGS` is the inverse of row `t` of `WIRINGS`: both
   * are substitutions of the 26 letters that undo each other.
   */
  predicate TablesInverseAt(t: RotorType) {
    forall x :: 0 <= x < 26 ==>
      0 <= WiringAt(t, x) < 26 && 0 <= InvWiringAt(t, x) < 26 && InvWiringAt(t, WiringAt(t, x)) == x && WiringAt(t, InvWiringAt(t, x)) == x
  }

  /** Each row of `INV_WIRINGS` is the inverse of the same row of `WIRINGS`. */
  lemma TablesInverse(t: RotorType)
    ensures TablesInverseAt(t)
  {
    match t
    case I => WiringIInverse();
    case II => WiringIIInverse();
    case III => WiringIIIInverse();
    case IV => WiringIVInverse();
    case V => WiringVInverse();
    case VI => WiringVIInverse();
    case VII => WiringVIIInverse();
    case VIII => WiringVIIIInverse();
    case Beta => WiringBetaInverse();
    case Gamma => WiringGammaInverse();
  }

  /** `util::modulo` by 26 undoes a shift by `o` of a letter shifted by `-o`. */
  lemma ModuloCancel(a: int, o: int)
    requires 0 <= a < 26
    ensures Modulo(Modulo(a - o, 26) + o, 26) == a
  {
    var q := (a - o) / 26;
    assert Modulo(a - o, 26) + o == a + 26 * -q;
    ModAddMultiple(a, -q, 26);
  }

  /** The table entry a pass reads: `INV_WIRINGS` when reversed, else `WIRINGS`. */
  function Wiring(t: RotorType, reverse: bool, x: int): (r: int)
    ensures 0 <= x < 26 ==> 0 <= r < 26
  {
    TablesInverse(t);
    if reverse then InvWiringAt(t, x) else WiringAt(t, x)
  }

  /** Looking an entry up in one table and the result up in the other gives the position back. */
  lemma WiringRoundTrip(t: RotorType, reverse: bool, x: int)
    requires 0 <= x < 26
    ensures Wiring(t, !reverse, Wiring(t, reverse, x)) == x
  {
    TablesInverse(t);
  }

  /**
   * `input`: the letter, shifted by `grund - rings` into the wiring's
   * position, is sent through the table and shifted back.
   */
  function Through(t: RotorType, grund: int, rings: int, letter: int, reverse: bool): (r: int)
    ensures 0 <= r < 26
  {
    Modulo(Wiring(t, reverse, Modulo(letter + grund - rings, 26)) - (grund - rings), 26)
  }

  /** The backward pass undoes the forward pass, and the forward pass undoes the backward one. */
  lemma ThroughRoundTrip(t: RotorType, grund: int, rings: int, letter: int, reverse: bool)
    requires 0 <= letter < 26
    ensures Through(t, grund, rings, Through(t, grund, rings, letter, reverse), !reverse) == letter
  {
    var offset := grund - rings;
    var pos := Modulo(letter + offset, 26);
    var y := Wiring(t, reverse, pos);
    WiringRoundTrip(t, reverse, pos);
    ModuloCancel(y, offset);
    assert Modulo(Modulo(y - offset, 26) + grund - rings, 26) == y;
    ModuloCancel(letter, -offset);
  }

  /** At fixed settings, a pass sends distinct letters to distinct letters. */
  lemma ThroughInjective(t: RotorType, grund: int, rings: int, x: int, y: int, reverse: bool)
    requires 0 <= x < 26 && 0 <= y < 26
    ensures Through(t, grund, rings, x, reverse) == Through(t, grund, rings, y, reverse) <==> x == y
  {
    ThroughRoundTrip(t, grund, rings, x, reverse);
    ThroughRoundTrip(t, grund, rings, y, reverse);
  }

  /** `is_on_notch`: the outer position is one of the rotor's notches. */
  predicate OnNotch(t: RotorType, grund: int) {
    grund in NotchesOf(t)
  }

  /**
   * Beta and Gamma never turn their neighbour from a position in `0..26`,
   * while each of I to VIII has a notch there.
   */
  lemma NotchProps(t: RotorType, grund: int)
    ensures (t == Beta || t == Gamma) && 0 <= grund ==> !OnNotch(t, grund)
    ensures t != Beta && t != Gamma ==> 0 <= NotchesOf(t)[0] < 26 && OnNotch(t, NotchesOf(t)[0])
  {
  }

  /** `step`'s new outer position, applied `k` times. */
  function Stepped(grund: int, k: nat): (r: int)
    decreases k
  {
    if k == 0 then grund else (Stepped(grund, k - 1) + 1) % 26
  }

  /** Reducing mod 26 before adding one changes nothing mod 26. */
  lemma ModSucc(x: int)
    ensures (x % 26 + 1) % 26 == (x + 1) % 26
  {
    ModAddMultiple(x + 1, -(x / 26), 26);
  }

  /** From a position in `0..26`, `k` steps advance it by `k` mod 26; a multiple of 26 steps brings it back. */
  lemma {:induction false} SteppedProps(grund: int, k: nat)
    requires 0 <= grund < 26
    ensures Stepped(grund, k) == (grund + k) % 26
    ensures k % 26 == 0 ==> Stepped(grund, k) == grund
    decreases k
  {
    if k > 0 {
      SteppedProps(grund, k - 1);
      ModSucc(grund + k - 1);
    }
    if k % 26 == 0 {
      ModAddMultiple(grund, k / 26, 26);
    }
  }

  /** The `expected` text of the error `set` returns for an unknown rotor. */
  const RotorChoices: string := "One of [i, ii, iii, iv, v, vi, vii, viii, beta, gamma]"

  /** The lower-case names `set` matches; Beta and Gamma also answer to "b" and "g". */
  function TypeOfName(name: string): (r: Option<RotorType>) {
    if name == "i" then Some(I)
    else if name == "ii" then Some(II)
    else if name == "iii" then Some(III)
    else if name == "iv" then Some(IV)
    else if name == "v" then Some(V)
    else if name == "vi" then Some(VI)
    else if name == "vii" then Some(VII)
    else if name == "viii" then Some(VIII)
    else if name == "beta" || name == "b" then Some(Beta)
    else if name == "gamma" || name == "g" then Some(Gamma)
    else None
  }

  /** The full lower-case name of each wiring type. */
  function Name(t: RotorType): string {
    match t
    case I => "i"
    case II => "ii"
    case III => "iii"
    case IV => "iv"
    case V => "v"
    case VI => "vi"
    case VII => "vii"
    case VIII => "viii"
    case Beta => "beta"
    case Gamma => "gamma"
  }

  /** The short name: "b" and "g" for Beta and Gamma, the full name otherwise. */
  function ShortName(t: RotorType): string {
    match t
    case Beta => "b"
    case Gamma => "g"
    case _ => Name(t)
  }

  /** A name is matched exactly when it is the full or short name of the type it selects. */
  lemma TypeOfNameIff(name: string, t: RotorType)
    ensures TypeOfName(name) == Some(t) <==> name == Name(t) || name == ShortName(t)
  {
  }

  /** `set` with text: the lowered argument selects the type; anything else is refused. */
  function ParseRotorType(arg: string): (r: Result<RotorType, Error>)
    ensures r.Success? <==> exists t: RotorType :: Lowered(arg) == Name(t) || Lowered(arg) == ShortName(t)
    ensures r.Success? ==> Lowered(arg) == Name(r.value) || Lowered(arg) == ShortName(r.value)
    ensures r.Failure? ==> r.error == InvalidKeyFmt(RotorChoices, arg)
  {
    match TypeOfName(Lowered(arg))
    case Some(t) =>
      TypeOfNameIff(Lowered(arg), t);
      Success(t)
    case None =>
      assert forall t: RotorType :: Lowered(arg) != Name(t) && Lowered(arg) != ShortName(t) by {
        forall t: RotorType ensures Lowered(arg) != Name(t) && Lowered(arg) != ShortName(t) {
          TypeOfNameIff(Lowered(arg), t);
        }
      }
      Failure(InvalidKeyFmt(RotorChoices, arg))
  }

  /** Every name, in any mix of case, selects its wiring type. */
  lemma ParseNames(t: RotorType, arg: string)
    requires Lowered(arg) == Name(t) || Lowered(arg) == ShortName(t)
    ensures ParseRotorType(arg) == Success(t)
  {
    TypeOfNameIff(Lowered(arg), t);
  }

  /** Upper-case names are accepted. */
  lemma ParseUpperExample()
    ensures ParseRotorType("VIII") == Success(VIII)
  {
    assert Lowered("VIII") == "viii";
    ParseNames(VIII, "VIII");
  }

  /** An unknown numeral is refused, with the argument echoed in the error. */
  lemma ParseRefusedExample()
    ensures ParseRotorType("ix") == Failure(InvalidKeyFmt(RotorChoices, "ix"))
  {
    assert Lowered("ix") == "ix";
  }

  class Rotor {
    var wiringType: RotorType
    var grund: int
    var rings: int

    /** `new` with a wiring type: both positions 0. */
    constructor (t: RotorType)
      ensures wiringType == t && grund == 0 && rings == 0
    {
      wiringType := t;
      grund := 0;
      rings := 0;
    }

    /** `Clone`: a fresh rotor in the same state. */
    method Clone() returns (c: Rotor)
      ensures fresh(c) && c.wiringType == wiringType && c.grund == grund && c.rings == rings
    {
      c := new Rotor(wiringType);
      c.grund := grund;
      c.rings := rings;
    }

    /** `new` with text: rotor I, then `set` with the text, failing as it fails. */
    static method FromString(arg: string) returns (r: Result<Rotor, Error>)
      ensures ParseRotorType(arg).Failure? ==> r == Failure(ParseRotorType(arg).error)
      ensures ParseRotorType(arg).Success? ==> r.Success? && fresh(r.value)
      ensures r.Success? ==> r.value.wiringType == ParseRotorType(arg).value && r.value.grund == 0 && r.value.rings == 0
    {
      var rotor := new Rotor(I);
      var outcome := rotor.Set(arg);
      match outcome {
        case Pass => r := Success(rotor);
        case Fail(e) => r := Failure(e);
      }
    }

    /** `input`. */
    function Input(letter: int, reverse: bool): (r: int)
      reads this
      ensures 0 <= r < 26
      ensures 0 <= letter < 26 ==> Through(wiringType, grund, rings, r, !reverse) == letter
    {
      var r := Through(wiringType, grund, rings, letter, reverse);
      assert 0 <= letter < 26 ==> Through(wiringType, grund, rings, r, !reverse) == letter by {
        if 0 <= letter < 26 { ThroughRoundTrip(wiringType, grund, rings, letter, reverse); }
      }
      r
    }

    /** `is_on_notch`. */
    predicate IsOnNotch()
      reads this
    {
      OnNotch(wiringType, grund)
    }

    /** `step`: the outer position advances by one, mod 26; nothing else changes. */
    method Step()
      modifies this
      ensures grund == Stepped(old(grund), 1) && 0 <= grund < 26
      ensures wiringType == old(wiringType) && rings == old(rings)
    {
      grund := Modulo(grund + 1, 26);
    }

    /** `reset_positions`. */
    method ResetPositions()
      modifies this
      ensures grund == 0 && rings == 0 && wiringType == old(wiringType)
    {
      grund := 0;
      rings := 0;
    }

    /** `set` with a wiring type: the positions are kept. */
    method SetType(t: RotorType)
      modifies this
      ensures wiringType == t && grund == old(grund) && rings == old(rings)
    {
      wiringType := t;
    }

    /** `set` with text: on a known name the type changes, on any other text nothing changes. */
    method Set(arg: string) returns (r: Outcome<Error>)
      modifies this
      ensures ParseRotorType(arg).Success? ==> r == Pass && wiringType == ParseRotorType(arg).value
      ensures ParseRotorType(arg).Failure? ==> r == Fail(ParseRotorType(arg).error) && wiringType == old(wiringType)
      ensures grund == old(grund) && rings == old(rings)
    {
      match ParseRotorType(arg) {
        case Success(t) =>
          wiringType := t;
          r := Pass;
        case Failure(e) =>
          r := Fail(e);
      }
    }

    /** `reset`: rotor I at positions 0. */
    method Reset()
      modifies this
      ensures wiringType == I && grund == 0 && rings == 0
    {
      wiringType := I;
      ResetPositions();
    }

    /**
     * `randomize`: `typeDraw` stands for `gen_range(0..8)` inside `sample`,
     * `grundDraw` and `ringsDraw` for the two `gen_range(0..26)`.
     */
    method Randomize(typeDraw: int, grundDraw: int, ringsDraw: int)
      requires 0 <= typeDraw < 8 && 0 <= grundDraw < 26 && 0 <= ringsDraw < 26
      modifies this
      ensures wiringType == FromDraw(typeDraw) && wiringType != Beta && wiringType != Gamma
      ensures grund == grundDraw && rings == ringsDraw
    {
      wiringType := FromDraw(typeDraw);
      grund := grundDraw;
      rings := ringsDraw;
    }
  }
}
