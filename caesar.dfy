/**
 * The Caesar cipher (`src/cipher/monoalph/caesar.rs`): every letter moves
 * `shift` code points along the alphabet, wrapping round, and keeps its
 * case; decryption moves it back. Every other character is copied.
 */
module Caesar {
  import opened Permutations
  import opened Arith
  import opened LangAlphabets
  import opened Languages
  import opened Letterwise

  /** `modulo(cp + shift, n)` for each code point of `p`. */
  function ShiftedCps(p: seq<int>, shift: int, n: int): (r: seq<int>)
    requires InRange(p, n)
    ensures |r| == |p| && InRange(r, n)
  {
    seq(|p|, i requires 0 <= i < |p| => Modulo(p[i] + shift, n))
  }

  /** Moving a code point forward and then back by the same amount returns it. */
  lemma ShiftBack(x: int, shift: int, n: int)
    requires 0 <= x < n
    ensures ((x + shift) % n - shift) % n == x
  {
    var q, y := (x + shift) / n, (x + shift) % n;
    assert x + shift == n * q + y;
    assert y - shift == n * -q + x;
    DivModUnique(y - shift, n, -q, x);
  }

  /** Shifting by `shift` and then by `-shift` gives back the code points. */
  lemma ShiftedBack(p: seq<int>, shift: int, n: int)
    requires InRange(p, n)
    ensures ShiftedCps(ShiftedCps(p, shift, n), -shift, n) == p
  {
    forall i | 0 <= i < |p| ensures ShiftedCps(ShiftedCps(p, shift, n), -shift, n)[i] == p[i] {
      ShiftBack(p[i], shift, n);
    }
  }

  /** `encrypt`. */
  function Encrypted(a: LangAlphabet, shift: int, msg: string): string
    requires WF(a)
  {
    StringToVecProps(a, msg);
    Relettered(a, msg, ShiftedCps(StringToVec(a, msg), shift, CpCount(a)))
  }

  /** `decrypt`: `modulo(cp - shift, n)`. */
  function Decrypted(a: LangAlphabet, shift: int, msg: string): string
    requires WF(a)
  {
    StringToVecProps(a, msg);
    Relettered(a, msg, ShiftedCps(StringToVec(a, msg), -shift, CpCount(a)))
  }

  /**
   * Letter by letter: a non-letter is copied, and a letter becomes the
   * letter of the same case whose code point is its own plus `shift`,
   * modulo the alphabet length.
   */
  lemma EncryptedLetters(a: LangAlphabet, shift: int, msg: string)
    requires WF(a)
    ensures |Encrypted(a, shift, msg)| == |msg|
    ensures forall i :: 0 <= i < |msg| && !IsLetter(a, msg[i]) ==> Encrypted(a, shift, msg)[i] == msg[i]
    ensures forall i :: 0 <= i < |msg| && IsLetter(a, msg[i]) ==>
      IsLetter(a, Encrypted(a, shift, msg)[i]) && (IsUpper(a, Encrypted(a, shift, msg)[i]) <==> IsUpper(a, msg[i]))
      && GetCp(a, Encrypted(a, shift, msg)[i]) == (GetCp(a, msg[i]) + shift) % CpCount(a)
  {
    StringToVecProps(a, msg);
    var p := StringToVec(a, msg);
    var n := CpCount(a);
    if n == 0 {
      ReletteredAt(a, msg, ShiftedCps(p, shift, n));
    } else {
      ReletteredPointwise(a, msg, ShiftedCps(p, shift, n), x => (x + shift) % n);
    }
  }

  /** Decryption letter by letter: the code point moves back by `shift`. */
  lemma DecryptedLetters(a: LangAlphabet, shift: int, msg: string)
    requires WF(a)
    ensures |Decrypted(a, shift, msg)| == |msg|
    ensures forall i :: 0 <= i < |msg| && !IsLetter(a, msg[i]) ==> Decrypted(a, shift, msg)[i] == msg[i]
    ensures forall i :: 0 <= i < |msg| && IsLetter(a, msg[i]) ==>
      IsLetter(a, Decrypted(a, shift, msg)[i]) && (IsUpper(a, Decrypted(a, shift, msg)[i]) <==> IsUpper(a, msg[i]))
      && GetCp(a, Decrypted(a, shift, msg)[i]) == (GetCp(a, msg[i]) - shift) % CpCount(a)
  {
    StringToVecProps(a, msg);
    var p := StringToVec(a, msg);
    var n := CpCount(a);
    if n == 0 {
      ReletteredAt(a, msg, ShiftedCps(p, -shift, n));
    } else {
      ReletteredPointwise(a, msg, ShiftedCps(p, -shift, n), x => (x - shift) % n);
    }
  }

  /** Decryption undoes encryption, and encryption undoes decryption, on a message of plain letters. */
  lemma RoundTrip(a: LangAlphabet, shift: int, msg: string)
    requires WF(a) && PlainLetters(a, msg)
    ensures Decrypted(a, shift, Encrypted(a, shift, msg)) == msg
    ensures Encrypted(a, shift, Decrypted(a, shift, msg)) == msg
  {
    DecryptUndoesEncrypt(a, shift, msg);
    DecryptUndoesEncrypt(a, -shift, msg);
    assert Decrypted(a, -shift, msg) == Encrypted(a, shift, msg);
    assert Encrypted(a, -shift, msg) == Decrypted(a, shift, msg);
  }

  /** Decryption undoes encryption on a message of plain letters. */
  lemma DecryptUndoesEncrypt(a: LangAlphabet, shift: int, msg: string)
    requires WF(a) && PlainLetters(a, msg)
    ensures Decrypted(a, shift, Encrypted(a, shift, msg)) == msg
  {
    StringToVecProps(a, msg);
    var p := StringToVec(a, msg);
    var n := CpCount(a);
    ReletteredUndone(a, msg, ShiftedCps(p, shift, n));
    ShiftedBack(p, shift, n);
  }

  /** With the shift `reset` leaves, encryption changes nothing. */
  lemma ZeroShift(a: LangAlphabet, msg: string)
    requires WF(a) && PlainLetters(a, msg)
    ensures Encrypted(a, 0, msg) == msg
  {
    StringToVecProps(a, msg);
    var p := StringToVec(a, msg);
    forall i | 0 <= i < |p| ensures ShiftedCps(p, 0, CpCount(a))[i] == p[i] {
      assert ValidCp(a, p[i]);
      assert p[i] % CpCount(a) == p[i];
    }
    assert ShiftedCps(p, 0, CpCount(a)) == p;
    ReletteredOwn(a, msg);
  }

  class Caesar {
    var shift: int

    /** `new`: shift 0. */
    constructor ()
      ensures shift == 0
    {
      shift := 0;
    }

    /** `reset`. */
    method Reset()
      modifies this
      ensures shift == 0
    {
      shift := 0;
    }

    /** `randomize`: `draw` stands for `gen_range(0..cp_count)`. */
    method Randomize(cpCount: int, draw: int)
      requires 0 <= draw < cpCount
      modifies this
      ensures shift == draw
    {
      shift := draw;
    }
  }
}
