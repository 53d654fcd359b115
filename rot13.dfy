/**
 * ROT13 (`src/cipher/monoalph/rot13.rs`). After asserting an even
 * alphabet length `n`, the source gives the letter of code point `cp` the
 * code point `n / 2 - cp`. That is a reflection about the middle of the
 * alphabet, not a rotation, and it is negative past the middle, where
 * `update_cp`'s assertion fails. The rotation evidently intended is
 * `(cp + n / 2) mod n`. Both are modelled here: `RanAsWritten` with its
 * failure cases, and `Ran`, the rotation.
 */
module Rot13 {
  import opened Wrappers
  import opened Permutations
  import opened Arith
  import opened LangAlphabets
  import opened Languages
  import opened Letterwise
  import English

  /** Some code point lies past the middle of the alphabet. */
  predicate PastMiddle(p: seq<int>, n: int) {
    exists k :: 0 <= k < |p| && p[k] > n / 2
  }

  /** `n / 2 - cp` for each code point of `p`, none of them past the middle. */
  function HalfCps(p: seq<int>, n: int): (r: seq<int>)
    requires InRange(p, n) && !PastMiddle(p, n)
    ensures |r| == |p| && InRange(r, n)
  {
    seq(|p|, k requires 0 <= k < |p| => n / 2 - p[k])
  }

  /**
   * `run` as written: `None` where it panics, both for an odd alphabet
   * length and for a letter past the middle of the alphabet.
   */
  function RanAsWritten(a: LangAlphabet, msg: string): (r: Option<string>)
    requires WF(a)
  {
    StringToVecProps(a, msg);
    var p := StringToVec(a, msg);
    var n := CpCount(a);
    if n % 2 != 0 || PastMiddle(p, n) then None
    else Some(Relettered(a, msg, HalfCps(p, n)))
  }

  /** The source's `run` fails exactly on an odd alphabet length or on a letter past the middle. */
  lemma AsWrittenPanics(a: LangAlphabet, msg: string)
    requires WF(a)
    ensures RanAsWritten(a, msg).None? <==>
      CpCount(a) % 2 != 0 || exists i :: 0 <= i < |msg| && IsLetter(a, msg[i]) && GetCp(a, msg[i]) > CpCount(a) / 2
  {
    StringToVecProps(a, msg);
    var p := StringToVec(a, msg);
    var n := CpCount(a);
    if PastMiddle(p, n) {
      var k :| 0 <= k < |p| && p[k] > n / 2;
      var i := LetterOfCode(a, msg, k);
    }
    if i :| 0 <= i < |msg| && IsLetter(a, msg[i]) && GetCp(a, msg[i]) > n / 2 {
      PrefixStep(a, msg, i);
      assert p[LetterCount(a, msg[..i])] > n / 2;
    }
  }

  /** Where the source's `run` succeeds, running it again gives back a message of plain letters. */
  lemma AsWrittenTwice(a: LangAlphabet, msg: string)
    requires WF(a) && PlainLetters(a, msg) && RanAsWritten(a, msg).Some?
    ensures RanAsWritten(a, RanAsWritten(a, msg).value) == Some(msg)
  {
    StringToVecProps(a, msg);
    var p := StringToVec(a, msg);
    var n := CpCount(a);
    var c := HalfCps(p, n);
    ReletteredUndone(a, msg, c);
    assert !PastMiddle(c, n);
    assert HalfCps(c, n) == p;
  }

  /* ------------------------------------------------------------------ */
  /*                    the rotation evidently intended                 */
  /* ------------------------------------------------------------------ */

  /** `(cp + n / 2) mod n` for each code point of `p`. */
  function RotatedCps(p: seq<int>, n: int): (r: seq<int>)
    requires InRange(p, n)
    ensures |r| == |p| && InRange(r, n)
  {
    seq(|p|, k requires 0 <= k < |p| => Modulo(p[k] + n / 2, n))
  }

  /** ROT13 as intended: half way round the alphabet, after the same even-length assertion. */
  function Ran(a: LangAlphabet, msg: string): (r: Option<string>)
    requires WF(a)
  {
    StringToVecProps(a, msg);
    if CpCount(a) % 2 != 0 then None
    else Some(Relettered(a, msg, RotatedCps(StringToVec(a, msg), CpCount(a))))
  }

  /** Half a turn and half a turn again bring a code point back. */
  lemma HalfTurns(x: int, n: int)
    requires 0 <= x < n && n % 2 == 0
    ensures ((x + n / 2) % n + n / 2) % n == x
  {
    var h := n / 2;
    assert h + h == n;
    if x + h < n {
      DivModUnique(x + h, n, 0, x + h);
      DivModUnique(x + n, n, 1, x);
    } else {
      DivModUnique(x + h, n, 1, x + h - n);
      DivModUnique(x, n, 0, x);
    }
  }

  /** The `k`-th rotated code point. */
  lemma RotatedAt(p: seq<int>, n: int, k: int)
    requires InRange(p, n) && 0 <= k < |p|
    ensures n > 0 && RotatedCps(p, n)[k] == (p[k] + n / 2) % n
  {
  }

  /** Rotating half way round twice is a full turn. */
  lemma RotatedTwice(p: seq<int>, n: int)
    requires InRange(p, n) && n % 2 == 0
    ensures RotatedCps(RotatedCps(p, n), n) == p
  {
    var q := RotatedCps(p, n);
    forall k | 0 <= k < |p| ensures RotatedCps(q, n)[k] == p[k] {
      RotatedAt(p, n, k);
      RotatedAt(q, n, k);
      HalfTurns(p[k], n);
    }
  }

  /**
   * Letter by letter, for an even alphabet length: non-letters are copied,
   * and a letter becomes the letter of the same case half way round.
   */
  lemma RanLetters(a: LangAlphabet, msg: string)
    requires WF(a) && CpCount(a) % 2 == 0
    ensures Ran(a, msg).Some? && |Ran(a, msg).value| == |msg|
    ensures forall i :: 0 <= i < |msg| && !IsLetter(a, msg[i]) ==> Ran(a, msg).value[i] == msg[i]
    ensures forall i :: 0 <= i < |msg| && IsLetter(a, msg[i]) ==>
      IsLetter(a, Ran(a, msg).value[i]) && (IsUpper(a, Ran(a, msg).value[i]) <==> IsUpper(a, msg[i]))
      && GetCp(a, Ran(a, msg).value[i]) == (GetCp(a, msg[i]) + CpCount(a) / 2) % CpCount(a)
  {
    StringToVecProps(a, msg);
    var n := CpCount(a);
    if n == 0 {
      ReletteredAt(a, msg, RotatedCps(StringToVec(a, msg), n));
    } else {
      ReletteredPointwise(a, msg, RotatedCps(StringToVec(a, msg), n), x => (x + n / 2) % n);
    }
  }

  /** The rotation fails only on an odd alphabet length, and undoes itself on a message of plain letters. */
  lemma Involution(a: LangAlphabet, msg: string)
    requires WF(a) && PlainLetters(a, msg)
    ensures Ran(a, msg).Some? <==> CpCount(a) % 2 == 0
    ensures Ran(a, msg).Some? ==> Ran(a, Ran(a, msg).value) == Some(msg)
  {
    if CpCount(a) % 2 == 0 {
      StringToVecProps(a, msg);
      var p := StringToVec(a, msg);
      var c := RotatedCps(p, CpCount(a));
      ReletteredUndone(a, msg, c);
      RotatedTwice(p, CpCount(a));
    }
  }

  /* ------------------------------------------------------------------ */
  /*                     the discrepancy on English                     */
  /* ------------------------------------------------------------------ */

  /** The letters of English the counterexample uses: "B" at 1, "Z" at 25, "M" at 12, "O" at 14. */
  predicate EnglishFacts(e: LangAlphabet) {
    && WF(e) && CpCount(e) == 26
    && IsLetter(e, 'B') && GetCp(e, 'B') == 1 && IsUpper(e, 'B')
    && IsLetter(e, 'Z') && GetCp(e, 'Z') == 25 && IsUpper(e, 'Z')
    && CpToUpper(e, 12) == 'M' && CpToUpper(e, 14) == 'O'
  }

  lemma EnglishLetters(e: LangAlphabet)
    requires e == English.Alphabet()
    ensures EnglishFacts(e)
  {
    English.AlphabetWF();
    English.LetterCodes(1);
    English.LetterCodes(25);
    English.LetterCodes(12);
    English.LetterCodes(14);
    English.LetterCases(1);
    English.LetterCases(25);
  }

  /** A message of one letter `c`: its code point, and the letter it becomes under code point `cp`. */
  lemma OneLetter(a: LangAlphabet, s: string, c: char, cp: int)
    requires WF(a) && s == [c] && IsLetter(a, c) && 0 <= cp < CpCount(a)
    ensures LetterCount(a, s) == 1 && StringToVec(a, s) == [GetCp(a, c)]
    ensures Relettered(a, s, [cp]) == [UpdateCp(a, c, cp)]
  {
    assert s[..0] == [];
  }

  /**
   * On an alphabet laid out as English, the source's `run` fails on "Z" and
   * sends "B" to "M", where ROT13 sends "B" to "O" and "Z" to "M".
   */
  lemma Counterexample(e: LangAlphabet, b: string, z: string)
    requires EnglishFacts(e) && b == "B" && z == "Z"
    ensures RanAsWritten(e, z) == None
    ensures RanAsWritten(e, b) == Some("M")
    ensures Ran(e, b) == Some("O") && Ran(e, z) == Some("M")
  {
    var n := CpCount(e);
    OneLetter(e, b, 'B', 12);
    OneLetter(e, b, 'B', 14);
    OneLetter(e, z, 'Z', 12);
    var pb, pz := StringToVec(e, b), StringToVec(e, z);
    assert pz[0] > n / 2;
    assert !PastMiddle(pb, n);
    assert HalfCps(pb, n) == [12];
    RotatedAt(pb, n, 0);
    RotatedAt(pz, n, 0);
    assert RotatedCps(pb, n) == [14];
    assert RotatedCps(pz, n) == [12];
  }

  /** The discrepancy on the English alphabet itself. */
  lemma AsWrittenCounterexample(e: LangAlphabet)
    requires e == English.Alphabet()
    ensures WF(e)
    ensures RanAsWritten(e, "Z") == None
    ensures RanAsWritten(e, "B") == Some("M")
    ensures Ran(e, "B") == Some("O") && Ran(e, "Z") == Some("M")
  {
    EnglishLetters(e);
    Counterexample(e, "B", "Z");
  }
}
