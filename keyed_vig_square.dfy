/**
 * The keyed Vigenère tableau (`src/key/vigenere_square/keyed_vig_square.rs`):
 * row `r` is a mixed alphabet rotated left by `r`, and `inverse` gives,
 * for each row, the position of every code point in it.
 */
module KeyedVigSquares {
  import opened Permutations
  import opened Util
  import opened ClassicVigSquares

  /**
   * Row `r` holds `alph` rotated by `r`, and `inverse[r, alph[c]]` is the
   * position `c` lands on.
   */
  predicate KeyedRowsUpTo(square: array2<int>, inverse: array2<int>, alph: seq<int>, rows: int)
    reads square, inverse
    requires Shaped(square, inverse) && rows <= 26 && |alph| == 26 && InRange(alph, 26)
  {
    forall r, i :: 0 <= r < rows && 0 <= i < 26 ==> square[r, i] == alph[Shift(r, i)] && inverse[r, alph[i]] == Unshift(r, i)
  }

  /** One row of the loop of `randomize`: row `row` becomes `alph` rotated by `row`. */
  method FillKeyedRow(square: array2<int>, inverse: array2<int>, alph: seq<int>, row: int)
    requires Shaped(square, inverse) && |alph| == 26 && IsPermutation(alph) && 0 <= row < 26
    modifies square, inverse
    ensures forall i :: 0 <= i < 26 ==> square[row, i] == alph[Shift(row, i)] && inverse[row, alph[i]] == Unshift(row, i)
    ensures forall r, i :: 0 <= r < 26 && r != row && 0 <= i < 26 ==> square[r, i] == old(square[r, i]) && inverse[r, i] == old(inverse[r, i])
  {
    var idx := 0;
    for col := row to 26
      invariant idx == col - row
      invariant forall r, i :: 0 <= r < 26 && r != row && 0 <= i < 26 ==> square[r, i] == old(square[r, i]) && inverse[r, i] == old(inverse[r, i])
      invariant forall c :: row <= c < col ==> inverse[row, alph[c]] == Unshift(row, c)
      invariant forall i :: 0 <= i < idx ==> square[row, i] == alph[Shift(row, i)]
    {
      inverse[row, alph[col]] := idx;
      square[row, idx] := alph[col];
      idx := idx + 1;
    }
    for col := 0 to row
      invariant idx == 26 - row + col
      invariant forall r, i :: 0 <= r < 26 && r != row && 0 <= i < 26 ==> square[r, i] == old(square[r, i]) && inverse[r, i] == old(inverse[r, i])
      invariant forall c :: (row <= c < 26 || 0 <= c < col) ==> inverse[row, alph[c]] == Unshift(row, c)
      invariant forall i :: 0 <= i < idx ==> square[row, i] == alph[Shift(row, i)]
    {
      inverse[row, alph[col]] := idx;
      square[row, idx] := alph[col];
      idx := idx + 1;
    }
  }

  /** The loop of `randomize` after the alphabet is drawn: every row rotated by its number. */
  method FillKeyedRows(square: array2<int>, inverse: array2<int>, alph: seq<int>)
    requires Shaped(square, inverse) && |alph| == 26 && IsPermutation(alph)
    modifies square, inverse
    ensures KeyedRowsUpTo(square, inverse, alph, 26)
  {
    for row := 0 to 26
      invariant KeyedRowsUpTo(square, inverse, alph, row)
    {
      FillKeyedRow(square, inverse, alph, row);
    }
  }

  /** The classic tableau is the keyed one over the plain alphabet `0..26`. */
  lemma ClassicIsKeyedByIdentity(square: array2<int>, inverse: array2<int>)
    requires Shaped(square, inverse) && ShiftRowsUpTo(square, inverse, 26)
    ensures InRange(Identity(26), 26) && KeyedRowsUpTo(square, inverse, Identity(26), 26)
  {
  }

  /** The mixed alphabet `randomize` draws: `0..26` shuffled with the draws `picks`. */
  function DrawnAlphabet(picks: seq<int>): (alph: seq<int>)
    requires |picks| == 26 && InRange(picks, 26)
    ensures |alph| == 26 && IsPermutation(alph)
  {
    ConsecutiveIsIdentity(26);
    IdentityIsPermutation(26);
    ShuffledProps(Consecutive(0, 26, 26), picks);
    Shuffled(Consecutive(0, 26, 26), picks)
  }

  class KeyedVigSquare {
    const square: array2<int>
    const inverse: array2<int>
    /** The mixed alphabet the tables were last built from (`0..26` after `init_squares`). */
    ghost var alphabet: seq<int>

    ghost predicate Valid()
      reads this
    {
      Shaped(square, inverse) && |alphabet| == 26 && IsPermutation(alphabet)
    }

    /** The tables hold the tableau keyed by `alphabet`. */
    ghost predicate Keyed()
      reads this, square, inverse
      requires Valid()
    {
      KeyedRowsUpTo(square, inverse, alphabet, 26)
    }

    /** `new`: two zero tables, then `init_squares`. */
    constructor ()
      ensures Valid() && Keyed() && alphabet == Identity(26) && fresh(square) && fresh(inverse)
    {
      square := new int[26, 26]((_, _) => 0);
      inverse := new int[26, 26]((_, _) => 0);
      alphabet := Identity(26);
      new;
      IdentityIsPermutation(26);
      InitShiftRows(square, inverse);
      ClassicIsKeyedByIdentity(square, inverse);
    }

    /** `init_squares`, which `reset` also runs: the classic tableau. */
    method InitSquares()
      requires Valid()
      modifies this, square, inverse
      ensures Valid() && Keyed() && alphabet == Identity(26)
      ensures ShiftRowsUpTo(square, inverse, 26)
    {
      InitShiftRows(square, inverse);
      alphabet := Identity(26);
      IdentityIsPermutation(26);
      ClassicIsKeyedByIdentity(square, inverse);
    }

    /**
     * `randomize`: `picks` stands for the draws of `shuffle` over the
     * consecutive alphabet `0..26`; the rows are then rebuilt from it.
     */
    method Randomize(picks: seq<int>)
      requires Valid() && |picks| == 26 && InRange(picks, 26)
      modifies this, square, inverse
      ensures Valid() && Keyed() && alphabet == DrawnAlphabet(picks)
    {
      var alph := new int[26](_ => 0);
      FillConsecutive(alph, 0, 26);
      Shuffle(alph, picks);
      assert alph[..] == DrawnAlphabet(picks);
      FillKeyedRows(square, inverse, alph[..]);
      alphabet := alph[..];
    }

    /** `encrypt`: the entry at row `x`, column `y`. */
    function Encrypt(x: int, y: int): int
      reads this, square
      requires Valid() && 0 <= x < 26 && 0 <= y < 26
    {
      square[x, y]
    }

    /** `decrypt`: the entry of the inverse at row `x`, column `y`. */
    function Decrypt(x: int, y: int): int
      reads this, inverse
      requires Valid() && 0 <= x < 26 && 0 <= y < 26
    {
      inverse[x, y]
    }
  }

  /**
   * A keyed tableau: each entry is a code point, the inverse finds every
   * entry's position in its row, and decrypting under row `k` undoes
   * encrypting at row `p`, column `k`, as the keyed Vigenère cipher needs.
   */
  lemma KeyedLookups(sq: KeyedVigSquare, r: int, i: int, p: int, k: int)
    requires sq.Valid() && sq.Keyed()
    requires 0 <= r < 26 && 0 <= i < 26 && 0 <= p < 26 && 0 <= k < 26
    ensures 0 <= sq.Encrypt(r, i) < 26 && sq.Decrypt(r, sq.Encrypt(r, i)) == i
    ensures 0 <= sq.Encrypt(p, k) < 26 && sq.Decrypt(k, sq.Encrypt(p, k)) == p
  {
    ShiftUnshift(r, i);
    ShiftUnshift(p, k);
    assert sq.Encrypt(p, k) == sq.alphabet[Shift(p, k)];
    assert sq.Decrypt(k, sq.alphabet[Shift(k, p)]) == Unshift(k, Shift(k, p));
  }
}
