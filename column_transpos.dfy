/**
 * Column transposition (`src/cipher/transpos/column_transpos.rs`): the
 * letters are written in rows of `k` columns, `k` the length of the
 * keyword, and the ciphertext reads the whole rows column by column, column
 * `c` landing in block `key_order[c]` of `len / k` letters, `key_order`
 * being `find_order` of the keyword. The letters past the last whole row
 * are not read: their entries of the index map stay 0, so they all take the
 * code point of the first letter.
 */
module ColumnTransposition {
  import opened Permutations
  import opened Util
  import opened LangAlphabets
  import opened Languages
  import opened Letterwise
  import opened Keywords
  import opened Transpositions

  /**
   * Entry `p` of `encrypt_indexes` for `rows` whole rows: position `p` of
   * block `p / rows` reads row `p % rows` of the column the key order sends
   * to that block; positions past the whole rows read letter 0.
   */
  function EncryptEntry(p: int, rows: int, ko: seq<int>): int
    requires KeyOrder(ko)
  {
    if 0 < rows && 0 <= p < rows * |ko| then
      CellOf(p, rows, |ko|);
      (p % rows) * |ko| + Inverted(ko)[p / rows]
    else 0
  }

  /** `encrypt_indexes`, entry by entry. */
  function EncryptOrder(len: nat, ko: seq<int>): (r: seq<int>)
    requires KeyOrder(ko)
    ensures |r| == len
  {
    seq(len, p => EncryptEntry(p, len / |ko|, ko))
  }

  /**
   * `decrypt_indexes`: position `p` of a whole row, in column `p % k`,
   * reads row `p / k` of block `key_order[p % k]`; every later position
   * reads letter 0.
   */
  function DecryptOrder(len: nat, ko: seq<int>): (r: seq<int>)
    requires KeyOrder(ko)
    ensures |r| == len
  {
    var k := |ko|;
    var rows := len / k;
    seq(len, p requires 0 <= p < len => if p < rows * k then ko[p % k] * rows + p / k else 0)
  }

  /** Both index maps point inside the message. */
  lemma OrdersInRange(len: nat, ko: seq<int>)
    requires KeyOrder(ko)
    ensures InRange(EncryptOrder(len, ko), len) && InRange(DecryptOrder(len, ko), len)
  {
    var k := |ko|;
    var rows := len / k;
    RowsFit(len, k);
    InvertedIsInverse(ko);
    forall p | 0 <= p < rows * k
      ensures 0 <= EncryptOrder(len, ko)[p] < len && 0 <= DecryptOrder(len, ko)[p] < len
    {
      PositiveFactor(rows, k);
      CellOf(p, rows, k);
      Cell(k, rows, p % rows, Inverted(ko)[p / rows]);
      CellOf(p, k, rows);
      Cell(rows, k, ko[p % k], p / k);
    }
  }

  /**
   * Column `c` of the grid, read top to bottom, is block `key_order[c]` of
   * the ciphertext: the two loops of the source, as facts about the maps.
   */
  lemma ColumnsInKeyOrder(len: nat, ko: seq<int>, c: int, r: int)
    requires KeyOrder(ko) && 0 <= c < |ko| && 0 <= r < len / |ko|
    ensures 0 <= ko[c] * (len / |ko|) + r < len && 0 <= r * |ko| + c < len
    ensures EncryptOrder(len, ko)[ko[c] * (len / |ko|) + r] == r * |ko| + c
    ensures DecryptOrder(len, ko)[r * |ko| + c] == ko[c] * (len / |ko|) + r
  {
    var k, rows := |ko|, len / |ko|;
    RowsFit(len, k);
    InvertedIsInverse(ko);
    Cell(rows, k, ko[c], r);
    Cell(k, rows, r, c);
  }

  /**
   * On a message of whole rows the two index maps are permutations, each
   * undoing the other.
   */
  lemma Orders(len: nat, ko: seq<int>)
    requires KeyOrder(ko) && len % |ko| == 0
    ensures IsPermutation(EncryptOrder(len, ko)) && IsPermutation(DecryptOrder(len, ko))
    ensures EncryptOrder(len, ko) == Inverted(DecryptOrder(len, ko))
    ensures DecryptOrder(len, ko) == Inverted(EncryptOrder(len, ko))
    ensures forall x :: 0 <= x < len ==> EncryptOrder(len, ko)[DecryptOrder(len, ko)[x]] == x
    ensures forall x :: 0 <= x < len ==> DecryptOrder(len, ko)[EncryptOrder(len, ko)[x]] == x
  {
    var k := |ko|;
    var rows := len / k;
    var e, d := EncryptOrder(len, ko), DecryptOrder(len, ko);
    assert len == k * rows + len % k;
    OrdersInRange(len, ko);
    forall x | 0 <= x < len ensures e[d[x]] == x {
      CellOf(x, k, rows);
      ColumnsInKeyOrder(len, ko, x % k, x / k);
    }
    forall x | 0 <= x < len ensures d[e[x]] == x {
      PositiveFactor(rows, k);
      CellOf(x, rows, k);
      InvertedIsInverse(ko);
      ColumnsInKeyOrder(len, ko, Inverted(ko)[x / rows], x % rows);
    }
    LeftInverse(e, d);
    LeftInverse(d, e);
  }

  /* ------------------------------------------------------------------ */
  /*                           the index maps                           */
  /* ------------------------------------------------------------------ */

  /**
   * The columns before `col`, and the first `row` rows of column `col`,
   * hold their entries of `encrypt_indexes`; the rest hold 0.
   */
  predicate EncFilled(s: seq<int>, ko: seq<int>, rows: int, col: int, row: int)
    requires KeyOrder(ko)
  {
    forall p {:trigger s[p]} :: 0 <= p < |s| ==> s[p] == EncEntry(p, ko, rows, col, row)
  }

  /** Entry `p` once the columns before `col` and `row` rows of column `col` are written. */
  function EncEntry(p: int, ko: seq<int>, rows: int, col: int, row: int): int
    requires KeyOrder(ko)
  {
    if 0 < rows && 0 <= p < rows * |ko| then
      CellOf(p, rows, |ko|);
      var c := Inverted(ko)[p / rows];
      if c < col || (c == col && p % rows < row) then EncryptEntry(p, rows, ko) else 0
    else 0
  }

  /** Writing row `row` of column `col` fills one more entry of `encrypt_indexes`. */
  lemma EncStep(s: seq<int>, ko: seq<int>, rows: int, col: int, row: int)
    requires KeyOrder(ko) && 0 <= col < |ko| && 0 <= row < rows && rows * |ko| <= |s|
    requires EncFilled(s, ko, rows, col, row)
    ensures 0 <= ko[col] * rows + row < |s|
    ensures EncFilled(s[ko[col] * rows + row := row * |ko| + col], ko, rows, col, row + 1)
  {
    var k := |ko|;
    var q := ko[col] * rows + row;
    Cell(rows, k, ko[col], row);
    InvertedIsInverse(ko);
    var t := s[q := row * k + col];
    forall p | 0 <= p < |t| ensures t[p] == EncEntry(p, ko, rows, col, row + 1) {
      if p < rows * k {
        CellOf(p, rows, k);
      }
    }
  }

  /** A column fully written: the next column starts. */
  lemma EncColumnDone(s: seq<int>, ko: seq<int>, rows: int, col: int)
    requires KeyOrder(ko) && 0 <= rows
    requires EncFilled(s, ko, rows, col, rows)
    ensures EncFilled(s, ko, rows, col + 1, 0)
  {
    forall p | 0 <= p < |s| ensures s[p] == EncEntry(p, ko, rows, col + 1, 0) {
      EncColumnCell(s, ko, rows, col, p);
    }
  }

  /** One entry of a fully written column. */
  lemma EncColumnCell(s: seq<int>, ko: seq<int>, rows: int, col: int, p: int)
    requires KeyOrder(ko) && 0 <= rows && 0 <= p < |s|
    requires EncFilled(s, ko, rows, col, rows)
    ensures s[p] == EncEntry(p, ko, rows, col + 1, 0)
  {
    if 0 < rows && p < rows * |ko| {
      CellOf(p, rows, |ko|);
    }
  }

  /** The zeroed array: nothing is filled yet. */
  lemma EncStart(s: seq<int>, ko: seq<int>, rows: int)
    requires KeyOrder(ko) && forall p :: 0 <= p < |s| ==> s[p] == 0
    ensures EncFilled(s, ko, rows, 0, 0)
  {
    InvertedIsInverse(ko);
    forall p | 0 <= p < |s| ensures s[p] == EncEntry(p, ko, rows, 0, 0) {
      if 0 < rows && p < rows * |ko| {
        CellOf(p, rows, |ko|);
        assert Inverted(ko)[p / rows] >= 0;
      }
    }
  }

  /** Every column written: the array is `encrypt_indexes`. */
  lemma EncDone(s: seq<int>, ko: seq<int>, len: nat)
    requires KeyOrder(ko) && |s| == len
    requires EncFilled(s, ko, len / |ko|, |ko|, 0)
    ensures s == EncryptOrder(len, ko)
  {
    var rows := len / |ko|;
    InvertedIsInverse(ko);
    forall p | 0 <= p < len ensures s[p] == EncryptOrder(len, ko)[p] {
      if 0 < rows && p < rows * |ko| {
        CellOf(p, rows, |ko|);
        assert Inverted(ko)[p / rows] < |ko|;
      }
    }
  }

  /** `encrypt_indexes`: for each column, for each whole row, the entry of the block its key order names. */
  method EncryptIndexes(len: nat, keyOrder: seq<int>) returns (r: seq<int>)
    requires KeyOrder(keyOrder)
    ensures r == EncryptOrder(len, keyOrder)
  {
    var k := |keyOrder|;
    var result := new int[len](_ => 0);
    var columnLength := len / k;
    RowsFit(len, k);
    EncStart(result[..], keyOrder, columnLength);
    for col := 0 to k
      invariant EncFilled(result[..], keyOrder, columnLength, col, 0)
    {
      for row := 0 to columnLength
        invariant EncFilled(result[..], keyOrder, columnLength, col, row)
      {
        EncStep(result[..], keyOrder, columnLength, col, row);
        ghost var before := result[..];
        result[keyOrder[col] * columnLength + row] := row * k + col;
        assert result[..] == before[keyOrder[col] * columnLength + row := row * k + col];
      }
      EncColumnDone(result[..], keyOrder, columnLength, col);
    }
    EncDone(result[..], keyOrder, len);
    return result[..];
  }

  /**
   * The columns before `col`, and the first `row` rows of column `col`,
   * hold their entries of `decrypt_indexes`; the rest hold 0.
   */
  predicate DecFilled(s: seq<int>, ko: seq<int>, rows: int, col: int, row: int)
    requires KeyOrder(ko)
  {
    forall p {:trigger s[p]} :: 0 <= p < |s| ==> s[p] == DecEntry(p, ko, rows, col, row)
  }

  /** Entry `p` once the columns before `col` and `row` rows of column `col` are written. */
  function DecEntry(p: int, ko: seq<int>, rows: int, col: int, row: int): int
    requires KeyOrder(ko)
  {
    if 0 <= p < rows * |ko| && (p % |ko| < col || (p % |ko| == col && p / |ko| < row))
    then ko[p % |ko|] * rows + p / |ko| else 0
  }

  /** Writing row `row` of column `col` fills one more entry of `decrypt_indexes`. */
  lemma DecStep(s: seq<int>, ko: seq<int>, rows: int, col: int, row: int)
    requires KeyOrder(ko) && 0 <= col < |ko| && 0 <= row < rows && rows * |ko| <= |s|
    requires DecFilled(s, ko, rows, col, row)
    ensures 0 <= row * |ko| + col < |s|
    ensures DecFilled(s[row * |ko| + col := ko[col] * rows + row], ko, rows, col, row + 1)
  {
    var k := |ko|;
    var q := row * k + col;
    Cell(k, rows, row, col);
    var t := s[q := ko[col] * rows + row];
    forall p | 0 <= p < |t| ensures t[p] == DecEntry(p, ko, rows, col, row + 1) {
      if p < rows * k {
        CellOf(p, k, rows);
      }
    }
  }

  /** A column fully written: the next column starts. */
  lemma DecColumnDone(s: seq<int>, ko: seq<int>, rows: int, col: int)
    requires KeyOrder(ko) && 0 <= rows
    requires DecFilled(s, ko, rows, col, rows)
    ensures DecFilled(s, ko, rows, col + 1, 0)
  {
    forall p | 0 <= p < |s| ensures s[p] == DecEntry(p, ko, rows, col + 1, 0) {
      DecColumnCell(s, ko, rows, col, p);
    }
  }

  /** One entry of a fully written column. */
  lemma DecColumnCell(s: seq<int>, ko: seq<int>, rows: int, col: int, p: int)
    requires KeyOrder(ko) && 0 <= rows && 0 <= p < |s|
    requires DecFilled(s, ko, rows, col, rows)
    ensures s[p] == DecEntry(p, ko, rows, col + 1, 0)
  {
    if p < rows * |ko| {
      CellOf(p, |ko|, rows);
    }
  }

  /** `decrypt_indexes`: for each column, for each whole row, the entry in the block its key order names. */
  method DecryptIndexes(len: nat, keyOrder: seq<int>) returns (r: seq<int>)
    requires KeyOrder(keyOrder)
    ensures r == DecryptOrder(len, keyOrder)
  {
    var k := |keyOrder|;
    var result := new int[len](_ => 0);
    var columnLength := len / k;
    RowsFit(len, k);
    for col := 0 to k
      invariant DecFilled(result[..], keyOrder, columnLength, col, 0)
    {
      for row := 0 to columnLength
        invariant DecFilled(result[..], keyOrder, columnLength, col, row)
      {
        DecStep(result[..], keyOrder, columnLength, col, row);
        ghost var before := result[..];
        result[row * k + col] := keyOrder[col] * columnLength + row;
        assert result[..] == before[row * k + col := keyOrder[col] * columnLength + row];
      }
      DecColumnDone(result[..], keyOrder, columnLength, col);
    }
    return result[..];
  }

  /* ------------------------------------------------------------------ */
  /*                             the cipher                             */
  /* ------------------------------------------------------------------ */

  /** `encrypt` with key order `ko`. */
  function Encrypted(a: LangAlphabet, ko: seq<int>, msg: string): string
    requires WF(a) && KeyOrder(ko)
  {
    OrdersInRange(LetterCount(a, msg), ko);
    Transposed(a, msg, EncryptOrder(LetterCount(a, msg), ko))
  }

  /** `decrypt` with key order `ko`. */
  function Decrypted(a: LangAlphabet, ko: seq<int>, msg: string): string
    requires WF(a) && KeyOrder(ko)
  {
    OrdersInRange(LetterCount(a, msg), ko);
    Transposed(a, msg, DecryptOrder(LetterCount(a, msg), ko))
  }

  /**
   * On a message of plain letters that fills whole rows, decryption undoes
   * encryption and encryption undoes decryption.
   */
  lemma RoundTrip(a: LangAlphabet, ko: seq<int>, msg: string)
    requires WF(a) && PlainLetters(a, msg) && KeyOrder(ko) && LetterCount(a, msg) % |ko| == 0
    ensures Decrypted(a, ko, Encrypted(a, ko, msg)) == msg
    ensures Encrypted(a, ko, Decrypted(a, ko, msg)) == msg
  {
    var len := LetterCount(a, msg);
    Orders(len, ko);
    OrdersInRange(len, ko);
    TransposedRoundTrip(a, msg, EncryptOrder(len, ko), DecryptOrder(len, ko));
    TransposedRoundTrip(a, msg, DecryptOrder(len, ko), EncryptOrder(len, ko));
  }

  /**
   * Non-letters keep their places and letters their case; a letter past
   * the last whole row takes the code point of the first letter.
   */
  lemma UnevenTail(a: LangAlphabet, ko: seq<int>, msg: string)
    requires WF(a) && KeyOrder(ko)
    ensures |Encrypted(a, ko, msg)| == |msg|
    ensures forall i :: 0 <= i < |msg| && !IsLetter(a, msg[i]) ==> Encrypted(a, ko, msg)[i] == msg[i]
    ensures forall i :: 0 <= i < |msg| && IsLetter(a, msg[i]) ==>
      IsLetter(a, Encrypted(a, ko, msg)[i]) && (IsUpper(a, Encrypted(a, ko, msg)[i]) <==> IsUpper(a, msg[i]))
    ensures forall i :: 0 <= i < |msg| && IsLetter(a, msg[i]) && LetterCount(a, msg[..i]) >= LetterCount(a, msg) / |ko| * |ko| ==>
      0 < |StringToVec(a, msg)| && GetCp(a, Encrypted(a, ko, msg)[i]) == StringToVec(a, msg)[0]
  {
    OrdersInRange(LetterCount(a, msg), ko);
    TransposedLetters(a, msg, EncryptOrder(LetterCount(a, msg), ko));
  }

  /** The cell `transposition_solve` reads for row `row` and column `col`: `col * num_rows + row`. */
  function ColumnCell(row: int, col: int, k: int, rows: int): int {
    col * rows + row
  }

  /** Every cell of the grid lies inside it, and `decrypt_indexes` is an index map for every key order. */
  lemma SolverReady()
    ensures ReadsInside(ColumnCell) && IndexMaker(DecryptOrder)
  {
    forall row, col, k, rows | 0 <= row < rows && 0 <= col < k ensures 0 <= ColumnCell(row, col, k, rows) < rows * k {
      CellInside(rows, k, col, row);
    }
    forall len: nat, key: seq<int> | 0 < |key| && IsPermutation(key)
      ensures DecryptOrder.requires(len, key) && |DecryptOrder(len, key)| == len && InRange(DecryptOrder(len, key), len)
    {
      OrdersInRange(len, key);
    }
  }

  class ColumnTransposition {
    const keyword: Keyword

    /** `new`: a fresh keyword, `[0]`. */
    constructor ()
      ensures fresh(keyword) && keyword.value == [0]
    {
      keyword := new Keyword();
    }

    /** `encrypt` with `find_order` of the keyword. */
    method Encrypt(a: LangAlphabet, msg: string) returns (r: string)
      requires WF(a) && |keyword.value| > 0 && forall i :: 0 <= i < |keyword.value| ==> keyword.value[i] >= 0
      ensures r == Encrypted(a, KeyOrderOf(keyword.value), msg)
    {
      var plaintext := StringToVec(a, msg);
      StringToVecProps(a, msg);
      var keyOrder := FindOrder(keyword.value);
      OrderIsPermutation(keyword.value);
      var idx := EncryptIndexes(|plaintext|, keyOrder);
      OrdersInRange(|plaintext|, keyOrder);
      GatheredRange(plaintext, idx, CpCount(a));
      r := Relettered(a, msg, Gathered(plaintext, idx));
    }

    /** `decrypt` with `find_order` of the keyword. */
    method Decrypt(a: LangAlphabet, msg: string) returns (r: string)
      requires WF(a) && |keyword.value| > 0 && forall i :: 0 <= i < |keyword.value| ==> keyword.value[i] >= 0
      ensures r == Decrypted(a, KeyOrderOf(keyword.value), msg)
    {
      var ciphertext := StringToVec(a, msg);
      StringToVecProps(a, msg);
      var keyOrder := FindOrder(keyword.value);
      OrderIsPermutation(keyword.value);
      var idx := DecryptIndexes(|ciphertext|, keyOrder);
      OrdersInRange(|ciphertext|, keyOrder);
      GatheredRange(ciphertext, idx, CpCount(a));
      r := Relettered(a, msg, Gathered(ciphertext, idx));
    }

    /**
     * `solve`: `transposition_solve` over the columns of the grid, and the
     * key it finds becomes the keyword. That key is a column order, so it
     * is its own `find_order` and encryption uses it as it stands.
     */
    method Solve(a: LangAlphabet, msg: string, bigrams: seq<real>, lo: real, score: seq<int> -> real)
      returns (ghost keys: seq<seq<int>>, ghost scores: seq<real>)
      requires WF(a) && BigramReady(StringToVec(a, msg), bigrams) && BigramsAbove(StringToVec(a, msg), bigrams, lo)
      requires ScoreAbove(score)
      modifies keyword
      ensures (SolverReady();
        Tried(StringToVec(a, msg), bigrams, ColumnCell, score, DecryptOrder, keys, scores,
              Schedule(MinInt(3, |StringToVec(a, msg)|), MinInt(15, |StringToVec(a, msg)|))))
      ensures |StringToVec(a, msg)| <= 3 ==> keyword.value == []
      ensures |StringToVec(a, msg)| > 3 ==>
        (exists j :: FirstBest(scores, j) && keyword.value == keys[j])
        && KeyOrder(keyword.value) && OrderOf(keyword.value) == keyword.value
    {
      var ciphertext := StringToVec(a, msg);
      SolverReady();
      var key;
      key, keys, scores := TranspositionSolve(ciphertext, bigrams, lo, score, DecryptOrder, ColumnCell);
      keyword.SetKey(key);
      if |ciphertext| > 3 {
        ghost var j :| FirstBest(scores, j) && key == keys[j];
        assert GridFor(ciphertext, bigrams, ColumnCell, Schedule(MinInt(3, |ciphertext|), MinInt(15, |ciphertext|))[j].0).k > 0;
        OrderOfPermutation(key);
      }
    }
  }
}
