/**
 * The Porta tableau (`src/key/vigenere_square/porta_square.rs`): thirteen
 * rows, each swapping the first half of the alphabet with the second half
 * under a rotation; rows 13..25 of the table are never written.
 */
module PortaSquares {
  import opened Permutations

  /** Row `r < 13` of the Porta tableau at position `i`. */
  function PortaCell(r: int, i: int): (v: int)
    requires 0 <= r < 13 && 0 <= i < 26
    ensures 0 <= v < 26
  {
    if i < 13 - r then i + r + 13
    else if i < 13 then i + r
    else if i < 13 + r then i - r
    else i - r - 13
  }

  /** A row sends position `i` of the first half to `13 + (r + i) mod 13`, and of the second half to `(i - 13 - r) mod 13`. */
  lemma PortaCellMod(r: int, i: int)
    requires 0 <= r < 13 && 0 <= i < 26
    ensures i < 13 ==> PortaCell(r, i) == 13 + (r + i) % 13
    ensures i >= 13 ==> PortaCell(r, i) == (i - 13 - r) % 13
  {
  }

  /** Each row swaps the halves and is its own inverse. */
  lemma {:induction false} PortaCellInvolution(r: int, x: int)
    requires 0 <= r < 13 && 0 <= x < 26
    ensures (x < 13 <==> PortaCell(r, x) >= 13)
    ensures PortaCell(r, PortaCell(r, x)) == x
  {
    if x < 13 - r {
      assert PortaCell(r, x) == x + r + 13;
    } else if x < 13 {
      assert PortaCell(r, x) == x + r;
    } else if x < 13 + r {
      assert PortaCell(r, x) == x - r;
    } else {
      assert PortaCell(r, x) == x - r - 13;
    }
  }

  /** Row `r` of the tableau as a sequence. */
  function PortaRow(r: int): (row: seq<int>)
    requires 0 <= r < 13
    ensures |row| == 26
  {
    seq(26, i requires 0 <= i < 26 => PortaCell(r, i))
  }

  /** Every row is a permutation of `0..26`, since it undoes itself. */
  lemma PortaRowPermutation(r: int)
    requires 0 <= r < 13
    ensures IsPermutation(PortaRow(r))
  {
    var row := PortaRow(r);
    forall i, j | 0 <= i < j < 26 ensures row[i] != row[j] {
      PortaCellInvolution(r, i);
      PortaCellInvolution(r, j);
    }
  }

  /** The first `rows` rows hold the Porta rows and the rows from 13 on hold zeros. */
  predicate PortaRowsUpTo(square: array2<int>, rows: int)
    reads square
    requires square.Length0 == 26 && square.Length1 == 26 && rows <= 13
  {
    forall r, i :: 0 <= r < rows && 0 <= i < 26 ==> square[r, i] == PortaCell(r, i)
  }

  /** The rows from 13 on are all zero. */
  predicate LowerRowsZero(square: array2<int>)
    reads square
    requires square.Length0 == 26 && square.Length1 == 26
  {
    forall r, i :: 13 <= r < 26 && 0 <= i < 26 ==> square[r, i] == 0
  }

  class PortaSquare {
    const square: array2<int>

    predicate Valid()
      reads this
    {
      square.Length0 == 26 && square.Length1 == 26
    }

    /** The table holds the Porta tableau in rows 0..12 and zeros below. */
    predicate Initialised()
      reads this, square
      requires Valid()
    {
      PortaRowsUpTo(square, 13) && LowerRowsZero(square)
    }

    /** `new`: a zero table, then `init_squares`. */
    constructor ()
      ensures Valid() && Initialised() && fresh(square)
    {
      square := new int[26, 26]((_, _) => 0);
      new;
      InitSquares();
    }

    /**
     * `init_squares`: for each row `r < 13` the counter `idx` runs through
     * four column ranges, writing `col + 13` for the columns from `r` to 13
     * and then below `r`, and `col` for the columns from `13 - r` to 13
     * and then below `13 - r`.
     */
    method InitSquares()
      requires Valid()
      modifies square
      ensures PortaRowsUpTo(square, 13)
      ensures forall r, i :: 13 <= r < 26 && 0 <= i < 26 ==> square[r, i] == old(square[r, i])
    {
      for row := 0 to 13
        invariant PortaRowsUpTo(square, row)
        invariant forall r, i :: 13 <= r < 26 && 0 <= i < 26 ==> square[r, i] == old(square[r, i])
      {
        FillRow(row);
      }
    }

    /** One row of `init_squares`. */
    method FillRow(row: int)
      requires Valid() && 0 <= row < 13
      modifies square
      ensures forall i :: 0 <= i < 26 ==> square[row, i] == PortaCell(row, i)
      ensures forall r, i :: 0 <= r < 26 && r != row && 0 <= i < 26 ==> square[r, i] == old(square[r, i])
    {
      var idx := 0;
      for col := row to 13
        invariant idx == col - row
        invariant forall r, i :: 0 <= r < 26 && r != row && 0 <= i < 26 ==> square[r, i] == old(square[r, i])
        invariant forall i :: 0 <= i < idx ==> square[row, i] == PortaCell(row, i)
      {
        square[row, idx] := col + 13;
        idx := idx + 1;
      }
      for col := 0 to row
        invariant idx == 13 - row + col
        invariant forall r, i :: 0 <= r < 26 && r != row && 0 <= i < 26 ==> square[r, i] == old(square[r, i])
        invariant forall i :: 0 <= i < idx ==> square[row, i] == PortaCell(row, i)
      {
        square[row, idx] := col + 13;
        idx := idx + 1;
      }
      for col := 13 - row to 13
        invariant idx == col + row
        invariant forall r, i :: 0 <= r < 26 && r != row && 0 <= i < 26 ==> square[r, i] == old(square[r, i])
        invariant forall i :: 0 <= i < idx ==> square[row, i] == PortaCell(row, i)
      {
        square[row, idx] := col;
        idx := idx + 1;
      }
      for col := 0 to 13 - row
        invariant idx == 13 + row + col
        invariant forall r, i :: 0 <= r < 26 && r != row && 0 <= i < 26 ==> square[r, i] == old(square[r, i])
        invariant forall i :: 0 <= i < idx ==> square[row, i] == PortaCell(row, i)
      {
        square[row, idx] := col;
        idx := idx + 1;
      }
    }

    /** `encrypt`: the entry at row `x`, column `y`. */
    function Encrypt(x: int, y: int): int
      reads this, square
      requires Valid() && 0 <= x < 26 && 0 <= y < 26
    {
      square[x, y]
    }

    /** `decrypt`: the same lookup as `encrypt`. */
    function Decrypt(x: int, y: int): (v: int)
      reads this, square
      requires Valid() && 0 <= x < 26 && 0 <= y < 26
      ensures v == Encrypt(x, y)
    {
      square[x, y]
    }
  }

  /**
   * In the initialised tableau a row below 13 sends the first half of the
   * alphabet to the second and back, and looking up twice in that row
   * gives back the letter; the rows from 13 on read zero.
   */
  lemma PortaLookups(sq: PortaSquare, r: int, x: int)
    requires sq.Valid() && sq.Initialised() && 0 <= x < 26
    requires 0 <= r < 26
    ensures r < 13 ==> (x < 13 <==> sq.Encrypt(r, x) >= 13)
    ensures r < 13 ==> 0 <= sq.Encrypt(r, x) < 26 && sq.Encrypt(r, sq.Encrypt(r, x)) == x
    ensures r >= 13 ==> sq.Encrypt(r, x) == 0
  {
    if r < 13 {
      PortaCellInvolution(r, x);
    }
  }
}
