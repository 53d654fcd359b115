/**
 * The scytale (`src/cipher/transpos/scytale.rs`): the letters are wound
 * round a rod of `num_faces` faces, letter `i` landing on face
 * `i mod num_faces`, and read face by face. Face `row` holds the letters
 * `row, row + num_faces, row + 2·num_faces, …`, which is the `step_by`
 * walk of both index maps.
 */
module Scytale {
  import opened Permutations
  import opened Util
  import opened Arith
  import opened LangAlphabets
  import opened Languages
  import opened Letterwise
  import opened Transpositions

  /** The face letter `i` lands on: `i mod f`, counted off one turn at a time. */
  function Face(i: nat, f: int): (r: int)
    requires f >= 1
    ensures 0 <= r < f
    decreases i
  {
    if i < f then i else Face(i - f, f)
  }

  /** `Face` is the remainder of `i` by `f`. */
  lemma {:induction false} FaceIsMod(i: nat, f: int)
    requires f >= 1
    ensures Face(i, f) == i % f
    decreases i
  {
    if i >= f {
      FaceIsMod(i - f, f);
      ModAddMultiple(i - f, 1, f);
    }
  }

  /** The face of every letter of a message of `len` letters. */
  function Faces(f: int, len: nat): (r: seq<int>)
    requires f >= 1
    ensures |r| == len && InRange(r, f)
  {
    seq(len, i requires 0 <= i < len => Face(i, f))
  }

  /** The letters `(i..len).step_by(f)` visits. */
  function Stride(i: nat, f: int, len: nat): seq<int>
    requires f >= 1
    decreases len - i
  {
    if i >= len then [] else [i] + Stride(i + f, f, len)
  }

  /** `encrypt_indexes`: letter `i` gets its place in the face-by-face reading. */
  function EncryptOrder(f: int, len: nat): seq<int>
    requires f >= 1
  {
    OrderOf(Faces(f, len))
  }

  /** `decrypt_indexes`: the letters listed face by face. */
  function DecryptOrder(f: int, len: nat): seq<int>
    requires f >= 1
  {
    Listed(Faces(f, len), f)
  }

  /** Two letters less than `f` apart on the same face are the same letter. */
  lemma {:induction false} SameFace(x: nat, y: nat, f: int)
    requires f >= 1 && x <= y < x + f && Face(x, f) == Face(y, f)
    ensures x == y
    decreases x
  {
    if x >= f {
      SameFace(x - f, y - f, f);
    }
  }

  /** No letter before face `g` lies on it. */
  lemma {:induction false} FaceStartsAt(f: int, len: nat, g: int, c: nat)
    requires 0 <= g < f && c <= len && c <= g
    ensures Members(Faces(f, len), g, c) == []
  {
    if c > 0 {
      FaceStartsAt(f, len, g, c - 1);
    }
  }

  /** The letter of face `g` after letter `i` is letter `i + f`: nothing on it lies between. */
  lemma {:induction false} FaceStep(f: int, len: nat, i: nat, c: nat)
    requires f >= 1 && i < c <= len && c <= i + f
    ensures Members(Faces(f, len), Face(i, f), c) == Members(Faces(f, len), Face(i, f), i) + [i]
  {
    if c > i + 1 {
      FaceStep(f, len, i, c - 1);
      if Face(c - 1, f) == Face(i, f) {
        SameFace(i, c - 1, f);
      }
    }
  }

  /** The place of letter `j` on face `g` follows the faces before and the letters of `g` before `j`. */
  lemma FaceRank(f: int, len: nat, j: nat)
    requires f >= 1 && j < len
    ensures Rank(Faces(f, len), j) == |Listed(Faces(f, len), Face(j, f))| + |Members(Faces(f, len), Face(j, f), j)|
    ensures 0 <= Rank(Faces(f, len), j) < len
  {
    RankSplit(Faces(f, len), j);
    OrderIsPermutation(Faces(f, len));
    assert OrderOf(Faces(f, len))[j] == Rank(Faces(f, len), j);
  }

  /**
   * Both index maps are permutations of `0..len` when there is a face,
   * each undoing the other.
   */
  lemma Orders(f: int, len: nat)
    requires f >= 1
    ensures IsPermutation(EncryptOrder(f, len)) && IsPermutation(DecryptOrder(f, len))
    ensures |EncryptOrder(f, len)| == |DecryptOrder(f, len)| == len
    ensures EncryptOrder(f, len) == Inverted(DecryptOrder(f, len))
    ensures DecryptOrder(f, len) == Inverted(EncryptOrder(f, len))
    ensures forall x :: 0 <= x < len ==> EncryptOrder(f, len)[DecryptOrder(f, len)[x]] == x
    ensures forall x :: 0 <= x < len ==> DecryptOrder(f, len)[EncryptOrder(f, len)[x]] == x
  {
    var keys := Faces(f, len);
    ListedInverts(keys, f);
    LeftInverse(OrderOf(keys), Listed(keys, f));
  }

  /**
   * Face `g` lists the letters `(g..len).step_by(f)`: from any letter `i`
   * of the face on, the rest of the face is the stride from `i`.
   */
  lemma {:induction false} FaceStride(f: int, len: nat, g: int, i: nat)
    requires 0 <= g < f && Face(i, f) == g
    ensures Members(Faces(f, len), g, len) == Members(Faces(f, len), g, MinInt(i, len)) + Stride(i, f, len)
    decreases len - i
  {
    if i < len {
      FaceStep(f, len, i, MinInt(i + f, len));
      assert Face(i + f, f) == g;
      FaceStride(f, len, g, i + f);
    }
  }

  /** Each face reads every `f`-th letter from its own: the `step_by` walk of both index maps. */
  lemma FaceIsStride(f: int, len: nat, g: int)
    requires 0 <= g < f
    ensures Members(Faces(f, len), g, len) == Stride(g, f, len)
  {
    FaceStartsAt(f, len, g, MinInt(g, len));
    FaceStride(f, len, g, g);
  }

  /** One step of the `step_by` walk moves letter `i` from the stride still to come to the visited letters. */
  lemma StrideStep(row: int, i: nat, f: int, len: nat, visited: seq<int>)
    requires f >= 1 && 0 <= row && i < len
    requires visited + Stride(i, f, len) == Stride(row, f, len)
    ensures (visited + [i]) + Stride(i + f, f, len) == Stride(row, f, len)
  {
    assert Stride(i, f, len) == [i] + Stride(i + f, f, len);
    assert (visited + [i]) + Stride(i + f, f, len) == visited + ([i] + Stride(i + f, f, len));
  }

  /**
   * Letter `i` of face `row`, reached after `visited` on the `step_by`
   * walk, takes the place after the faces before `row` and `visited`.
   */
  lemma FacePlace(f: int, len: nat, row: int, i: nat, visited: seq<int>)
    requires 0 <= row < f && row <= i < len && Face(i, f) == row
    requires visited + Stride(i, f, len) == Stride(row, f, len)
    ensures Rank(Faces(f, len), i) == |Listed(Faces(f, len), row)| + |visited| < len
    ensures Face(i + f, f) == row
  {
    FaceRank(f, len, i);
    FaceStride(f, len, row, i);
    FaceIsStride(f, len, row);
    assert |Members(Faces(f, len), row, MinInt(i, len))| + |Stride(i, f, len)| == |visited| + |Stride(i, f, len)|;
  }

  /** At the end of the walk over face `row` the visited letters are the whole face. */
  lemma FaceDone(f: int, len: nat, row: int, i: nat, visited: seq<int>)
    requires 0 <= row < f && i >= len
    requires visited + Stride(i, f, len) == Stride(row, f, len)
    ensures Listed(Faces(f, len), row + 1) == Listed(Faces(f, len), row) + visited
  {
    FaceIsStride(f, len, row);
    assert visited == Stride(row, f, len);
  }

  /** Letters on the faces before `row`, and those of face `row` before letter `i`, hold their place in the reading; the rest hold 0. */
  predicate RankedBelow(s: seq<int>, keys: seq<int>, row: int, i: int) {
    |s| == |keys| && (forall j :: 0 <= j < |keys| ==> keys[j] >= 0) &&
    forall j {:trigger s[j]} :: 0 <= j < |keys| ==>
      s[j] == (if keys[j] < row || (keys[j] == row && j < i) then Rank(keys, j) else 0)
  }

  /** Numbering letter `i` of face `row` moves the numbered part on to letter `i + f`. */
  lemma RankedNext(s: seq<int>, f: int, row: int, i: nat)
    requires 0 <= row < f && i < |s| && Face(i, f) == row && RankedBelow(s, Faces(f, |s|), row, i)
    ensures RankedBelow(s[i := Rank(Faces(f, |s|), i)], Faces(f, |s|), row, i + f)
  {
    forall j | i < j < i + f && j < |s| ensures Faces(f, |s|)[j] != row {
      if Faces(f, |s|)[j] == row {
        SameFace(i, j, f);
      }
    }
  }

  /** The inner loop of `encrypt_indexes`: number the letters of face `row`. */
  method NumberFace(result: array<int>, f: int, row: int, idx0: int) returns (idx: int)
    requires 0 <= row < f && RankedBelow(result[..], Faces(f, result.Length), row, row)
    requires idx0 == |Listed(Faces(f, result.Length), row)|
    modifies result
    ensures RankedBelow(result[..], Faces(f, result.Length), row + 1, 0)
    ensures idx == |Listed(Faces(f, result.Length), row + 1)|
  {
    var len := result.Length;
    ghost var keys := Faces(f, len);
    idx := idx0;
    var i := row;
    ghost var visited: seq<int> := [];
    while i < len
      invariant i >= row && Face(i, f) == row
      invariant visited + Stride(i, f, len) == Stride(row, f, len) && idx == idx0 + |visited|
      invariant RankedBelow(result[..], keys, row, i)
      decreases len - i
    {
      FacePlace(f, len, row, i, visited);
      RankedNext(result[..], f, row, i);
      StrideStep(row, i, f, len, visited);
      ghost var before := result[..];
      result[i] := idx;
      assert result[..] == before[i := idx];
      idx := idx + 1;
      visited := visited + [i];
      i := i + f;
    }
    FaceDone(f, len, row, i, visited);
  }

  /**
   * `encrypt_indexes`: number the letters face by face, each face by `step_by(f)`;
   * with no faces nothing is written and every entry stays 0.
   */
  method EncryptIndexes(f: int, len: nat) returns (r: seq<int>)
    requires f >= 0
    ensures f == 0 ==> r == seq(len, _ => 0)
    ensures f >= 1 ==> r == EncryptOrder(f, len)
  {
    var result := new int[len](_ => 0);
    if f == 0 {
      return result[..];
    }
    ghost var keys := Faces(f, len);
    var idx := 0;
    for row := 0 to f
      invariant idx == |Listed(keys, row)|
      invariant RankedBelow(result[..], keys, row, 0)
    {
      assert RankedBelow(result[..], keys, row, row);
      idx := NumberFace(result, f, row, idx);
    }
    return result[..];
  }

  /** The inner loop of `decrypt_indexes`: list the letters of face `row`. */
  method ListFace(result: array<int>, f: int, row: int, idx0: int) returns (idx: int)
    requires 0 <= row < f && 0 <= idx0 <= result.Length
    requires result[..idx0] == Listed(Faces(f, result.Length), row)
    modifies result
    ensures 0 <= idx <= result.Length && result[..idx] == Listed(Faces(f, result.Length), row + 1)
  {
    var len := result.Length;
    ghost var keys := Faces(f, len);
    idx := idx0;
    var i := row;
    ghost var visited: seq<int> := [];
    while i < len
      invariant i >= row && Face(i, f) == row
      invariant visited + Stride(i, f, len) == Stride(row, f, len)
      invariant 0 <= idx <= len && idx == idx0 + |visited|
      invariant result[..idx] == Listed(keys, row) + visited
      decreases len - i
    {
      FacePlace(f, len, row, i, visited);
      StrideStep(row, i, f, len, visited);
      result[idx] := i;
      assert result[..idx + 1] == result[..idx] + [i];
      idx := idx + 1;
      visited := visited + [i];
      i := i + f;
    }
    FaceDone(f, len, row, i, visited);
  }

  /**
   * `decrypt_indexes`: list the letters face by face, each face by `step_by(f)`;
   * with no faces nothing is written and every entry stays 0.
   */
  method DecryptIndexes(f: int, len: nat) returns (r: seq<int>)
    requires f >= 0
    ensures f == 0 ==> r == seq(len, _ => 0)
    ensures f >= 1 ==> r == DecryptOrder(f, len)
  {
    var result := new int[len](_ => 0);
    if f == 0 {
      return result[..];
    }
    ghost var keys := Faces(f, len);
    var idx := 0;
    for row := 0 to f
      invariant 0 <= idx <= len && result[..idx] == Listed(keys, row)
    {
      idx := ListFace(result, f, row, idx);
    }
    Orders(f, len);
    assert result[..] == result[..idx];
    return result[..];
  }

  /* ------------------------------------------------------------------ */
  /*                             the cipher                             */
  /* ------------------------------------------------------------------ */

  /** `encrypt` with `f` faces. */
  function Encrypted(a: LangAlphabet, f: int, msg: string): string
    requires WF(a) && f >= 1
  {
    Orders(f, LetterCount(a, msg));
    Transposed(a, msg, EncryptOrder(f, LetterCount(a, msg)))
  }

  /** `decrypt` with `f` faces. */
  function Decrypted(a: LangAlphabet, f: int, msg: string): string
    requires WF(a) && f >= 1
  {
    Orders(f, LetterCount(a, msg));
    Transposed(a, msg, DecryptOrder(f, LetterCount(a, msg)))
  }

  /** Decryption undoes encryption and encryption undoes decryption, on a message of plain letters. */
  lemma RoundTrip(a: LangAlphabet, f: int, msg: string)
    requires WF(a) && PlainLetters(a, msg) && f >= 1
    ensures Decrypted(a, f, Encrypted(a, f, msg)) == msg
    ensures Encrypted(a, f, Decrypted(a, f, msg)) == msg
  {
    var len := LetterCount(a, msg);
    Orders(f, len);
    TransposedRoundTrip(a, msg, EncryptOrder(f, len), DecryptOrder(f, len));
    TransposedRoundTrip(a, msg, DecryptOrder(f, len), EncryptOrder(f, len));
  }

  /** Non-letters keep their positions and letters their case. */
  lemma NonLettersStay(a: LangAlphabet, f: int, msg: string)
    requires WF(a) && f >= 1
    ensures |Encrypted(a, f, msg)| == |msg|
    ensures forall i :: 0 <= i < |msg| && !IsLetter(a, msg[i]) ==> Encrypted(a, f, msg)[i] == msg[i]
    ensures forall i :: 0 <= i < |msg| && IsLetter(a, msg[i]) ==>
      IsLetter(a, Encrypted(a, f, msg)[i]) && (IsUpper(a, Encrypted(a, f, msg)[i]) <==> IsUpper(a, msg[i]))
  {
    Orders(f, LetterCount(a, msg));
    TransposedLetters(a, msg, EncryptOrder(f, LetterCount(a, msg)));
  }

  /** The score `solve` gives `f` faces. */
  function FaceScore(ct: seq<int>, score: seq<int> -> F64, f: int): F64
    requires f >= 1
  {
    Orders(f, |ct|);
    score(Gathered(ct, DecryptOrder(f, |ct|)))
  }

  /** One trial of `solve`: the score of the ciphertext read through `decrypt_indexes` with `f` faces. */
  method TryFaces(ciphertext: seq<int>, score: seq<int> -> F64, f: int) returns (s: real)
    requires f >= 1
    ensures s == FaceScore(ciphertext, score, f)
  {
    var idx := DecryptIndexes(f, |ciphertext|);
    Orders(f, |ciphertext|);
    s := score(Gathered(ciphertext, idx));
  }

  /**
   * The loop of `solve`: the first number of faces in `2..50` whose
   * decryption scores best, or the current `faces0` when none scores above
   * `f64::MIN`.
   */
  method BestFaces(ciphertext: seq<int>, score: seq<int> -> F64, faces0: int) returns (best: int, ghost scores: seq<real>)
    ensures |scores| == 48
    ensures forall i :: 0 <= i < 48 ==> scores[i] == FaceScore(ciphertext, score, i + 2)
    ensures (exists i :: 0 <= i < 48 && scores[i] > F64Min) ==> FirstBest(scores, best - 2)
    ensures (forall i :: 0 <= i < 48 ==> scores[i] == F64Min) ==> best == faces0
  {
    var bestScore := F64Min;
    best := faces0;
    scores := [];
    for f := 2 to 50
      invariant |scores| == f - 2
      invariant forall i :: 0 <= i < f - 2 ==> scores[i] == FaceScore(ciphertext, score, i + 2)
      invariant KeptCount(scores, best, bestScore, faces0)
    {
      var s := TryFaces(ciphertext, score, f);
      KeptCountSnoc(scores, best, bestScore, faces0, s);
      if s > bestScore {
        bestScore := s;
        best := f;
      }
      scores := scores + [s];
    }
    KeptCountOutcome(scores, best, bestScore, faces0);
  }

  class Scytale {
    var numFaces: int

    /** `new`: two faces. */
    constructor ()
      ensures numFaces == 2
    {
      numFaces := 2;
    }

    /** `reset`: back to two faces. */
    method Reset()
      modifies this
      ensures numFaces == 2
    {
      numFaces := 2;
    }

    /** `randomize`: `draw` stands for `gen_range(2..15)`. */
    method Randomize(draw: int)
      requires 2 <= draw < 15
      modifies this
      ensures numFaces == draw
    {
      numFaces := draw;
    }

    /** `encrypt`: the `k`-th letter takes the code point of letter `encrypt_indexes[k]`. */
    method Encrypt(a: LangAlphabet, msg: string) returns (r: string)
      requires WF(a) && numFaces >= 1
      ensures r == Encrypted(a, numFaces, msg)
    {
      var plaintext := StringToVec(a, msg);
      StringToVecProps(a, msg);
      var idx := EncryptIndexes(numFaces, |plaintext|);
      Orders(numFaces, |plaintext|);
      GatheredRange(plaintext, idx, CpCount(a));
      r := Relettered(a, msg, Gathered(plaintext, idx));
    }

    /** `decrypt`: the `k`-th letter takes the code point of letter `decrypt_indexes[k]`. */
    method Decrypt(a: LangAlphabet, msg: string) returns (r: string)
      requires WF(a) && numFaces >= 1
      ensures r == Decrypted(a, numFaces, msg)
    {
      var ciphertext := StringToVec(a, msg);
      StringToVecProps(a, msg);
      var idx := DecryptIndexes(numFaces, |ciphertext|);
      Orders(numFaces, |ciphertext|);
      GatheredRange(ciphertext, idx, CpCount(a));
      r := Relettered(a, msg, Gathered(ciphertext, idx));
    }

    /**
     * `solve`: try 2 to 49 faces and keep the first that scores best;
     * `scores[i]` is the score of `i + 2` faces. The running best starts
     * at `f64::MIN` and moves on a strict `>`, so when every trial scores
     * `f64::MIN` the number of faces stays what it was.
     */
    method Solve(a: LangAlphabet, msg: string, score: seq<int> -> F64) returns (ghost scores: seq<real>)
      requires WF(a)
      modifies this
      ensures |scores| == 48
      ensures forall i :: 0 <= i < 48 ==> scores[i] == FaceScore(StringToVec(a, msg), score, i + 2)
      ensures (exists i :: 0 <= i < 48 && scores[i] > F64Min) ==> FirstBest(scores, numFaces - 2)
      ensures (forall i :: 0 <= i < 48 ==> scores[i] == F64Min) ==> numFaces == old(numFaces)
    {
      var ciphertext := StringToVec(a, msg);
      var best;
      best, scores := BestFaces(ciphertext, score, numFaces);
      numFaces := best;
    }
  }
}
