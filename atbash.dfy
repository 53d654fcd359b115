/**
 * The Atbash cipher (`src/cipher/monoalph/atbash.rs`): the letter of code
 * point `cp` becomes the letter of `n - 1 - cp`, reading the alphabet
 * backwards, in its own case; the same run encrypts and decrypts.
 */
module Atbash {
  import opened Permutations
  import opened LangAlphabets
  import opened Languages
  import opened Letterwise

  /** `cp_count() - 1 - cp` for each code point of `p`. */
  function MirroredCps(p: seq<int>, n: int): (r: seq<int>)
    requires InRange(p, n)
    ensures |r| == |p| && InRange(r, n)
  {
    seq(|p|, i requires 0 <= i < |p| => n - 1 - p[i])
  }

  /** `run`. */
  function Ran(a: LangAlphabet, msg: string): string
    requires WF(a)
  {
    StringToVecProps(a, msg);
    Relettered(a, msg, MirroredCps(StringToVec(a, msg), CpCount(a)))
  }

  /**
   * Letter by letter: non-letters are copied, and a letter becomes the
   * letter of the same case counted as far from the end of the alphabet as
   * it was from the start.
   */
  lemma RanLetters(a: LangAlphabet, msg: string)
    requires WF(a)
    ensures |Ran(a, msg)| == |msg|
    ensures forall i :: 0 <= i < |msg| && !IsLetter(a, msg[i]) ==> Ran(a, msg)[i] == msg[i]
    ensures forall i :: 0 <= i < |msg| && IsLetter(a, msg[i]) ==>
      IsLetter(a, Ran(a, msg)[i]) && (IsUpper(a, Ran(a, msg)[i]) <==> IsUpper(a, msg[i]))
      && GetCp(a, Ran(a, msg)[i]) == CpCount(a) - 1 - GetCp(a, msg[i])
  {
    StringToVecProps(a, msg);
    var n := CpCount(a);
    ReletteredPointwise(a, msg, MirroredCps(StringToVec(a, msg), n), x => n - 1 - x);
  }

  /** Running the cipher twice gives back a message of plain letters. */
  lemma Involution(a: LangAlphabet, msg: string)
    requires WF(a) && PlainLetters(a, msg)
    ensures Ran(a, Ran(a, msg)) == msg
  {
    StringToVecProps(a, msg);
    var p := StringToVec(a, msg);
    var c := MirroredCps(p, CpCount(a));
    ReletteredUndone(a, msg, c);
    assert MirroredCps(c, CpCount(a)) == p;
  }
}
