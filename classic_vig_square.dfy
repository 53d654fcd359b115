/**
 * The classic Vigenère tableau (`src/key/vigenere_square/classic_vig_square.rs`):
 * a 26 by 26 `square` whose row `r` is the alphabet rotated left by `r`,
 * and an `inverse` that undoes each row.
 */
module ClassicVigSquares {
  import opened Permutations

  /** Row `r` of the classic tableau at position `i`: `(r + i) mod 26`. */
  function Shift(r: int, i: int): (v: int)
    requires 0 <= r < 26 && 0 <= i < 26
    ensures 0 <= v < 26
  {
    if r + i < 26 then r + i else r + i - 26
  }

  /** The position of `c` in row `r`: `(c - r) mod 26`. */
  function Unshift(r: int, c: int): (v: int)
    requires 0 <= r < 26 && 0 <= c < 26
    ensures 0 <= v < 26
  {
    if r <= c then c - r else c - r + 26
  }

  /** The row lookups are addition and subtraction mod 26. */
  lemma ShiftMod(r: int, i: int)
    requires 0 <= r < 26 && 0 <= i < 26
    ensures Shift(r, i) == (r + i) % 26 && Unshift(r, i) == (i - r) % 26
  {
  }

  /** Shifting and unshifting by the same row undo each other. */
  lemma ShiftUnshift(r: int, x: int)
    requires 0 <= r < 26 && 0 <= x < 26
    ensures Unshift(r, Shift(r, x)) == x && Shift(r, Unshift(r, x)) == x
    ensures Shift(r, x) == Shift(x, r) && Unshift(Unshift(x, r), r) == x
  {
  }

  /** Row `r` of the tableau as a sequence. */
  function ShiftRow(r: int): (row: seq<int>)
    requires 0 <= r < 26
    ensures |row| == 26
  {
    seq(26, i requires 0 <= i < 26 => Shift(r, i))
  }

  /** Every row of the tableau is a permutation of `0..26`. */
  lemma ShiftRowPermutation(r: int)
    requires 0 <= r < 26
    ensures IsPermutation(ShiftRow(r))
  {
    var row := ShiftRow(r);
    forall i, j | 0 <= i < j < 26 ensures row[i] != row[j] {
      ShiftUnshift(r, i);
      ShiftUnshift(r, j);
    }
  }

  /** Both tables are 26 by 26 and are two different arrays. */
  predicate Shaped(square: array2<int>, inverse: array2<int>) {
    square.Length0 == 26 && square.Length1 == 26 && inverse.Length0 == 26 && inverse.Length1 == 26
    && square != inverse
  }

  /** The first `rows` rows hold the rotated alphabets and their inverses. */
  predicate ShiftRowsUpTo(square: array2<int>, inverse: array2<int>, rows: int)
    reads square, inverse
    requires Shaped(square, inverse) && rows <= 26
  {
    forall r, i :: 0 <= r < rows && 0 <= i < 26 ==> square[r, i] == Shift(r, i) && inverse[r, i] == Unshift(r, i)
  }

  /**
   * `init_squares`: for each row, the counter `idx` walks the columns from
   * the row number to the end and then from the start up to the row number.
   */
  method InitShiftRows(square: array2<int>, inverse: array2<int>)
    requires Shaped(square, inverse)
    modifies square, inverse
    ensures ShiftRowsUpTo(square, inverse, 26)
  {
    for row := 0 to 26
      invariant ShiftRowsUpTo(square, inverse, row)
    {
      var idx := 0;
      for col := row to 26
        invariant idx == col - row
        invariant ShiftRowsUpTo(square, inverse, row)
        invariant forall c :: row <= c < col ==> inverse[row, c] == Unshift(row, c)
        invariant forall i :: 0 <= i < idx ==> square[row, i] == Shift(row, i)
      {
        inverse[row, col] := idx;
        square[row, idx] := col;
        idx := idx + 1;
      }
      for col := 0 to row
        invariant idx == 26 - row + col
        invariant ShiftRowsUpTo(square, inverse, row)
        invariant forall c :: (row <= c < 26 || 0 <= c < col) ==> inverse[row, c] == Unshift(row, c)
        invariant forall i :: 0 <= i < idx ==> square[row, i] == Shift(row, i)
      {
        inverse[row, col] := idx;
        square[row, idx] := col;
        idx := idx + 1;
      }
    }
  }

  class ClassicVigSquare {
    const square: array2<int>
    const inverse: array2<int>

    predicate Valid()
      reads this
    {
      Shaped(square, inverse)
    }

    /** The tables hold the classic tableau. */
    predicate Initialised()
      reads this, square, inverse
      requires Valid()
    {
      ShiftRowsUpTo(square, inverse, 26)
    }

    /** `new`: two zero tables, then `init_squares`. */
    constructor ()
      ensures Valid() && Initialised() && fresh(square) && fresh(inverse)
    {
      square := new int[26, 26]((_, _) => 0);
      inverse := new int[26, 26]((_, _) => 0);
      new;
      InitShiftRows(square, inverse);
    }

    /** `init_squares`. */
    method InitSquares()
      requires Valid()
      modifies square, inverse
      ensures Initialised()
    {
      InitShiftRows(square, inverse);
    }

    /** `encrypt`: the entry at row `x`, column `y`; the indices must be inside the table. */
    function Encrypt(x: int, y: int): int
      reads this, square
      requires Valid() && 0 <= x < 26 && 0 <= y < 26
    {
      square[x, y]
    }

    /** `decrypt`: the entry of the inverse at row `x`, column `y`. */
    function Decrypt(x: int, y: int): int
      reads this, inverse
      requires Valid() && 0 <= x < 26 && 0 <= y < 26
    {
      inverse[x, y]
    }
  }

  /**
   * The lookups of the initialised tableau: encryption adds the two
   * indices mod 26, decryption under row `k` subtracts `k`, and decrypting
   * with the key undoes encrypting the plain letter with it.
   */
  lemma ClassicLookups(sq: ClassicVigSquare, p: int, k: int)
    requires sq.Valid() && sq.Initialised() && 0 <= p < 26 && 0 <= k < 26
    ensures sq.Encrypt(p, k) == (p + k) % 26 && sq.Decrypt(k, p) == (p - k) % 26
    ensures 0 <= sq.Encrypt(p, k) < 26 && sq.Decrypt(k, sq.Encrypt(p, k)) == p
    ensures sq.Encrypt(k, sq.Decrypt(k, p)) == p
  {
    ShiftMod(p, k);
    ShiftMod(k, p);
    ShiftUnshift(k, p);
  }

  /** The lookups of the initialised tableau, as the row functions. */
  lemma Lookups(sq: ClassicVigSquare, x: int, y: int)
    requires sq.Valid() && sq.Initialised() && 0 <= x < 26 && 0 <= y < 26
    ensures sq.Encrypt(x, y) == Shift(x, y) && sq.Decrypt(x, y) == Unshift(x, y)
  {
  }
}
