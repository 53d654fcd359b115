/**
 * The Bellaso tableau (`src/key/vigenere_square/bellaso_square.rs`):
 * rows 0..12 each swap the two halves of the alphabet under a rotation,
 * and rows 13..25 are those rows read backwards.
 */
module BellasoSquares {
  import opened Permutations

  /** Row `r < 13` of the tableau at position `i`. */
  function BellasoCell(r: int, i: int): (v: int)
    requires 0 <= r < 13 && 0 <= i < 26
    ensures 0 <= v < 26
  {
    if i < r then 26 + i - r
    else if i < 13 then 13 + i - r
    else if i < 26 - r then i - 13 + r
    else i - 26 + r
  }

  /** A row sends position `i` of the first half to `13 + (i - r) mod 13`, and of the second half to `(i - 13 + r) mod 13`. */
  lemma BellasoCellMod(r: int, i: int)
    requires 0 <= r < 13 && 0 <= i < 26
    ensures i < 13 ==> BellasoCell(r, i) == 13 + (i - r) % 13
    ensures i >= 13 ==> BellasoCell(r, i) == (i - 13 + r) % 13
  {
  }

  /** Any row of the tableau: rows from 13 on mirror row `r - 13`. */
  function Cell(r: int, i: int): (v: int)
    requires 0 <= r < 26 && 0 <= i < 26
    ensures 0 <= v < 26
  {
    if r < 13 then BellasoCell(r, i) else BellasoCell(r - 13, 25 - i)
  }

  /** Each of the first thirteen rows swaps the halves and is its own inverse. */
  lemma {:induction false} BellasoCellInvolution(r: int, x: int)
    requires 0 <= r < 13 && 0 <= x < 26
    ensures (x < 13 <==> BellasoCell(r, x) >= 13)
    ensures BellasoCell(r, BellasoCell(r, x)) == x
  {
    if x < r {
      assert BellasoCell(r, x) == 26 + x - r;
    } else if x < 13 {
      assert BellasoCell(r, x) == 13 + x - r;
    } else if x < 26 - r {
      assert BellasoCell(r, x) == x - 13 + r;
    } else {
      assert BellasoCell(r, x) == x - 26 + r;
    }
  }

  /** A mirrored row keeps each half in place and is its own inverse as well. */
  lemma {:induction false} MirrorCellInvolution(r: int, x: int)
    requires 13 <= r < 26 && 0 <= x < 26
    ensures (x < 13 <==> Cell(r, x) < 13)
    ensures Cell(r, Cell(r, x)) == x
  {
    var s, y := r - 13, 25 - x;
    if y < s {
      assert Cell(r, x) == 26 + y - s;
    } else if y < 13 {
      assert Cell(r, x) == 13 + y - s;
    } else if y < 26 - s {
      assert Cell(r, x) == y - 13 + s;
    } else {
      assert Cell(r, x) == y - 26 + s;
    }
  }

  /** Row `r` of the tableau as a sequence. */
  function BellasoRow(r: int): (row: seq<int>)
    requires 0 <= r < 26
    ensures |row| == 26
  {
    seq(26, i requires 0 <= i < 26 => Cell(r, i))
  }

  /** Every row, mirrored or not, is a permutation of `0..26`. */
  lemma BellasoRowPermutation(r: int)
    requires 0 <= r < 26
    ensures IsPermutation(BellasoRow(r))
  {
    var row := BellasoRow(r);
    forall i, j | 0 <= i < j < 26 ensures row[i] != row[j] {
      if r < 13 {
        BellasoCellInvolution(r, i);
        BellasoCellInvolution(r, j);
      } else {
        BellasoCellInvolution(r - 13, 25 - i);
        BellasoCellInvolution(r - 13, 25 - j);
      }
    }
  }

  /** The first `rows` rows hold the tableau's first thirteen rows. */
  predicate BellasoRowsUpTo(square: array2<int>, rows: int)
    reads square
    requires square.Length0 == 26 && square.Length1 == 26 && rows <= 13
  {
    forall r, i :: 0 <= r < rows && 0 <= i < 26 ==> square[r, i] == BellasoCell(r, i)
  }

  class BellasoSquare {
    const square: array2<int>

    predicate Valid()
      reads this
    {
      square.Length0 == 26 && square.Length1 == 26
    }

    /** The table holds the whole Bellaso tableau. */
    predicate Initialised()
      reads this, square
      requires Valid()
    {
      forall r, i :: 0 <= r < 26 && 0 <= i < 26 ==> square[r, i] == Cell(r, i)
    }

    /** `new`: a zero table, then `init_squares`. */
    constructor ()
      ensures Valid() && Initialised() && fresh(square)
    {
      square := new int[26, 26]((_, _) => 0);
      new;
      InitSquares();
    }

    /** `init_squares`: the first thirteen rows, then their mirror images. */
    method InitSquares()
      requires Valid()
      modifies square
      ensures Initialised()
    {
      for row := 0 to 13
        invariant BellasoRowsUpTo(square, row)
      {
        FillRow(row);
      }
      for row := 0 to 13
        invariant BellasoRowsUpTo(square, 13)
        invariant forall r, i :: 13 <= r < 13 + row && 0 <= i < 26 ==> square[r, i] == Cell(r, i)
      {
        var mirror := row + 13;
        for col := 0 to 26
          invariant BellasoRowsUpTo(square, 13)
          invariant forall r, i :: 13 <= r < 13 + row && 0 <= i < 26 ==> square[r, i] == Cell(r, i)
          invariant forall i :: 25 - col < i < 26 ==> square[mirror, i] == Cell(mirror, i)
        {
          square[mirror, 25 - col] := square[row, col];
        }
      }
    }

    /**
     * One of the first thirteen rows: the counter `idx` runs through four
     * column ranges, writing `26 + col - row` below `row`, `13 + col - row`
     * from `row` to 13, then `col + row` below `13 - row` and `col` below
     * `row`.
     */
    method FillRow(row: int)
      requires Valid() && 0 <= row < 13
      modifies square
      ensures forall i :: 0 <= i < 26 ==> square[row, i] == BellasoCell(row, i)
      ensures forall r, i :: 0 <= r < 26 && r != row && 0 <= i < 26 ==> square[r, i] == old(square[r, i])
    {
      var idx := 0;
      for col := 0 to row
        invariant idx == col
        invariant forall r, i :: 0 <= r < 26 && r != row && 0 <= i < 26 ==> square[r, i] == old(square[r, i])
        invariant forall i :: 0 <= i < idx ==> square[row, i] == BellasoCell(row, i)
      {
        square[row, idx] := 26 + col - row;
        idx := idx + 1;
      }
      for col := row to 13
        invariant idx == col
        invariant forall r, i :: 0 <= r < 26 && r != row && 0 <= i < 26 ==> square[r, i] == old(square[r, i])
        invariant forall i :: 0 <= i < idx ==> square[row, i] == BellasoCell(row, i)
      {
        square[row, idx] := 13 + col - row;
        idx := idx + 1;
      }
      for col := 0 to 13 - row
        invariant idx == 13 + col
        invariant forall r, i :: 0 <= r < 26 && r != row && 0 <= i < 26 ==> square[r, i] == old(square[r, i])
        invariant forall i :: 0 <= i < idx ==> square[row, i] == BellasoCell(row, i)
      {
        square[row, idx] := col + row;
        idx := idx + 1;
      }
      for col := 0 to row
        invariant idx == 26 - row + col
        invariant forall r, i :: 0 <= r < 26 && r != row && 0 <= i < 26 ==> square[r, i] == old(square[r, i])
        invariant forall i :: 0 <= i < idx ==> square[row, i] == BellasoCell(row, i)
      {
        square[row, idx] := col;
        idx := idx + 1;
      }
    }

    /** `encrypt`: the entry at row `x`, column `y`. */
    function Encrypt(x: int, y: int): int
      reads this, square
      requires Valid() && 0 <= x < 26 && 0 <= y < 26
    {
      square[x, y]
    }

    /** `decrypt`: the same lookup as `encrypt`. */
    function Decrypt(x: int, y: int): (v: int)
      reads this, square
      requires Valid() && 0 <= x < 26 && 0 <= y < 26
      ensures v == Encrypt(x, y)
    {
      square[x, y]
    }
  }

  /**
   * In the initialised tableau every entry is a code point, rows from 13
   * on mirror the first thirteen, the first thirteen rows swap the halves
   * of the alphabet, and looking up twice in any row gives back the letter.
   */
  lemma BellasoLookups(sq: BellasoSquare, r: int, x: int)
    requires sq.Valid() && sq.Initialised() && 0 <= r < 26 && 0 <= x < 26
    ensures 0 <= sq.Encrypt(r, x) < 26
    ensures r < 13 ==> sq.Encrypt(r + 13, 25 - x) == sq.Encrypt(r, x)
    ensures r < 13 ==> (x < 13 <==> sq.Encrypt(r, x) >= 13)
    ensures sq.Encrypt(r, sq.Encrypt(r, x)) == x
  {
    if r < 13 {
      BellasoCellInvolution(r, x);
    } else {
      MirrorCellInvolution(r, x);
    }
  }
}
