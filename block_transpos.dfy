/**
 * Block transposition (`src/cipher/transpos/block_transpos.rs`): the
 * letters are laid out in rows of `k` columns, `k` the length of the
 * keyword, and within every whole row the letter of column `c` moves to
 * column `key_order[c]`, `key_order` being `find_order` of the keyword.
 * The letters past the last whole row are not moved: their entries of the
 * index map stay 0, so they all take the code point of the first letter.
 */
module BlockTransposition {
  import opened Permutations
  import opened Util
  import opened LangAlphabets
  import opened Languages
  import opened Letterwise
  import opened Keywords
  import opened Transpositions

  /**
   * `encrypt_indexes`: position `p` of a whole row, in column `p % k`,
   * reads the letter of the same row in the column the key order sends
   * there; every later position reads letter 0.
   */
  function EncryptOrder(len: nat, ko: seq<int>): (r: seq<int>)
    requires KeyOrder(ko)
    ensures |r| == len
  {
    var k := |ko|;
    var whole := len / k * k;
    var inv := Inverted(ko);
    seq(len, p requires 0 <= p < len => if p < whole then p - p % k + inv[p % k] else 0)
  }

  /** `decrypt_indexes`: position `p` of a whole row reads the letter of column `key_order[p % k]`; every later position reads letter 0. */
  function DecryptOrder(len: nat, ko: seq<int>): (r: seq<int>)
    requires KeyOrder(ko)
    ensures |r| == len
  {
    var k := |ko|;
    var whole := len / k * k;
    seq(len, p requires 0 <= p < len => if p < whole then p - p % k + ko[p % k] else 0)
  }

  /** Both index maps point inside the message. */
  lemma OrdersInRange(len: nat, ko: seq<int>)
    requires KeyOrder(ko)
    ensures InRange(EncryptOrder(len, ko), len) && InRange(DecryptOrder(len, ko), len)
  {
    var k := |ko|;
    var rows := len / k;
    RowsFit(len, k);
    InvertedIsInverse(ko);
    forall p | 0 <= p < rows * k
      ensures 0 <= EncryptOrder(len, ko)[p] < len && 0 <= DecryptOrder(len, ko)[p] < len
    {
      CellOf(p, k, rows);
      Cell(k, rows, p / k, Inverted(ko)[p % k]);
      Cell(k, rows, p / k, ko[p % k]);
    }
  }

  /**
   * On a message of whole rows the two index maps are permutations, each
   * undoing the other, and every row is rearranged within itself.
   */
  lemma Orders(len: nat, ko: seq<int>)
    requires KeyOrder(ko) && len % |ko| == 0
    ensures IsPermutation(EncryptOrder(len, ko)) && IsPermutation(DecryptOrder(len, ko))
    ensures EncryptOrder(len, ko) == Inverted(DecryptOrder(len, ko))
    ensures DecryptOrder(len, ko) == Inverted(EncryptOrder(len, ko))
    ensures forall x :: 0 <= x < len ==> EncryptOrder(len, ko)[DecryptOrder(len, ko)[x]] == x
    ensures forall x :: 0 <= x < len ==> DecryptOrder(len, ko)[EncryptOrder(len, ko)[x]] == x
    ensures forall x :: 0 <= x < len ==>
      DecryptOrder(len, ko)[x] / |ko| == x / |ko| && EncryptOrder(len, ko)[x] / |ko| == x / |ko|
  {
    var k := |ko|;
    var rows := len / k;
    var e, d := EncryptOrder(len, ko), DecryptOrder(len, ko);
    var inv := Inverted(ko);
    assert len == k * rows + len % k;
    InvertedIsInverse(ko);
    OrdersInRange(len, ko);
    forall x | 0 <= x < len ensures e[d[x]] == x && d[e[x]] == x && d[x] / k == x / k && e[x] / k == x / k {
      CellOf(x, k, rows);
      Cell(k, rows, x / k, ko[x % k]);
      Cell(k, rows, x / k, inv[x % k]);
    }
    LeftInverse(e, d);
    LeftInverse(d, e);
  }

  /* ------------------------------------------------------------------ */
  /*                           the index maps                           */
  /* ------------------------------------------------------------------ */

  /**
   * The columns before `col`, and the first `row` rows of column `col`,
   * hold their entries of `encrypt_indexes`; the rest hold 0.
   */
  predicate EncFilled(s: seq<int>, ko: seq<int>, inv: seq<int>, whole: int, col: int, row: int)
    requires |ko| > 0 && |inv| == |ko|
  {
    forall p {:trigger s[p]} :: 0 <= p < |s| ==> s[p] == EncEntry(p, ko, inv, whole, col, row)
  }

  /** Entry `p` once the columns before `col` and `row` rows of column `col` are written. */
  function EncEntry(p: int, ko: seq<int>, inv: seq<int>, whole: int, col: int, row: int): int
    requires |ko| > 0 && |inv| == |ko|
  {
    if p < whole && (inv[p % |ko|] < col || (inv[p % |ko|] == col && p / |ko| < row))
    then p - p % |ko| + inv[p % |ko|] else 0
  }

  /** Writing row `row` of column `col` fills one more entry of `encrypt_indexes`. */
  lemma EncStep(s: seq<int>, ko: seq<int>, rows: int, col: int, row: int)
    requires KeyOrder(ko) && 0 <= col < |ko| && 0 <= row < rows && rows * |ko| <= |s|
    requires EncFilled(s, ko, Inverted(ko), rows * |ko|, col, row)
    ensures 0 <= row * |ko| + ko[col] < |s|
    ensures EncFilled(s[row * |ko| + ko[col] := row * |ko| + col], ko, Inverted(ko), rows * |ko|, col, row + 1)
  {
    var k := |ko|;
    var inv := Inverted(ko);
    var q := row * k + ko[col];
    Cell(k, rows, row, ko[col]);
    InvertedIsInverse(ko);
    forall p | 0 <= p < rows * k && p != q && inv[p % k] == col ensures p / k != row {
      CellOf(p, k, rows);
    }
  }

  /** A column fully written: the next column starts. */
  lemma EncColumnDone(s: seq<int>, ko: seq<int>, rows: int, col: int)
    requires KeyOrder(ko) && 0 <= rows
    requires EncFilled(s, ko, Inverted(ko), rows * |ko|, col, rows)
    ensures EncFilled(s, ko, Inverted(ko), rows * |ko|, col + 1, 0)
  {
    forall p | 0 <= p < |s| ensures s[p] == EncEntry(p, ko, Inverted(ko), rows * |ko|, col + 1, 0) {
      EncColumnCell(s, ko, rows, col, p);
    }
  }

  /** One entry of a fully written column. */
  lemma EncColumnCell(s: seq<int>, ko: seq<int>, rows: int, col: int, p: int)
    requires KeyOrder(ko) && 0 <= rows && 0 <= p < |s|
    requires EncFilled(s, ko, Inverted(ko), rows * |ko|, col, rows)
    ensures s[p] == EncEntry(p, ko, Inverted(ko), rows * |ko|, col + 1, 0)
  {
    if p < rows * |ko| {
      CellOf(p, |ko|, rows);
    }
  }

  /** The zeroed array: nothing is filled yet. */
  lemma EncStart(s: seq<int>, ko: seq<int>, whole: int)
    requires KeyOrder(ko) && forall p :: 0 <= p < |s| ==> s[p] == 0
    ensures EncFilled(s, ko, Inverted(ko), whole, 0, 0)
  {
    InvertedIsInverse(ko);
  }

  /** Every column written: the array is `encrypt_indexes`. */
  lemma EncDone(s: seq<int>, ko: seq<int>, len: nat)
    requires KeyOrder(ko) && |s| == len
    requires EncFilled(s, ko, Inverted(ko), len / |ko| * |ko|, |ko|, 0)
    ensures s == EncryptOrder(len, ko)
  {
    InvertedIsInverse(ko);
  }

  /** `encrypt_indexes`: for each column, for each whole row, the column's entry in the row its key order names. */
  method EncryptIndexes(len: nat, keyOrder: seq<int>) returns (r: seq<int>)
    requires KeyOrder(keyOrder)
    ensures r == EncryptOrder(len, keyOrder)
  {
    var k := |keyOrder|;
    var result := new int[len](_ => 0);
    var columnLength := len / k;
    RowsFit(len, k);
    EncStart(result[..], keyOrder, columnLength * k);
    for col := 0 to k
      invariant EncFilled(result[..], keyOrder, Inverted(keyOrder), columnLength * k, col, 0)
    {
      for row := 0 to columnLength
        invariant EncFilled(result[..], keyOrder, Inverted(keyOrder), columnLength * k, col, row)
      {
        EncStep(result[..], keyOrder, columnLength, col, row);
        ghost var before := result[..];
        result[row * k + keyOrder[col]] := row * k + col;
        assert result[..] == before[row * k + keyOrder[col] := row * k + col];
      }
      EncColumnDone(result[..], keyOrder, columnLength, col);
    }
    EncDone(result[..], keyOrder, len);
    return result[..];
  }

  /**
   * The columns before `col`, and the first `row` rows of column `col`,
   * hold their entries of `decrypt_indexes`; the rest hold 0.
   */
  predicate DecFilled(s: seq<int>, ko: seq<int>, whole: int, col: int, row: int)
    requires |ko| > 0
  {
    forall p {:trigger s[p]} :: 0 <= p < |s| ==> s[p] == DecEntry(p, ko, whole, col, row)
  }

  /** Entry `p` once the columns before `col` and `row` rows of column `col` are written. */
  function DecEntry(p: int, ko: seq<int>, whole: int, col: int, row: int): int
    requires |ko| > 0
  {
    if p < whole && (p % |ko| < col || (p % |ko| == col && p / |ko| < row))
    then p - p % |ko| + ko[p % |ko|] else 0
  }

  /** Writing row `row` of column `col` fills one more entry of `decrypt_indexes`. */
  lemma DecStep(s: seq<int>, ko: seq<int>, rows: int, col: int, row: int)
    requires KeyOrder(ko) && 0 <= col < |ko| && 0 <= row < rows && rows * |ko| <= |s|
    requires DecFilled(s, ko, rows * |ko|, col, row)
    ensures 0 <= row * |ko| + col < |s|
    ensures DecFilled(s[row * |ko| + col := row * |ko| + ko[col]], ko, rows * |ko|, col, row + 1)
  {
    var k := |ko|;
    var q := row * k + col;
    Cell(k, rows, row, col);
    forall p | 0 <= p < rows * k && p != q && p % k == col ensures p / k != row {
      CellOf(p, k, rows);
    }
  }

  /** A column fully written: the next column starts. */
  lemma DecColumnDone(s: seq<int>, ko: seq<int>, rows: int, col: int)
    requires KeyOrder(ko) && 0 <= rows
    requires DecFilled(s, ko, rows * |ko|, col, rows)
    ensures DecFilled(s, ko, rows * |ko|, col + 1, 0)
  {
    forall p | 0 <= p < |s| ensures s[p] == DecEntry(p, ko, rows * |ko|, col + 1, 0) {
      DecColumnCell(s, ko, rows, col, p);
    }
  }

  /** One entry of a fully written column. */
  lemma DecColumnCell(s: seq<int>, ko: seq<int>, rows: int, col: int, p: int)
    requires KeyOrder(ko) && 0 <= rows && 0 <= p < |s|
    requires DecFilled(s, ko, rows * |ko|, col, rows)
    ensures s[p] == DecEntry(p, ko, rows * |ko|, col + 1, 0)
  {
    if p < rows * |ko| {
      CellOf(p, |ko|, rows);
    }
  }

  /** `decrypt_indexes`: for each column, for each whole row, the entry of the column its key order names. */
  method DecryptIndexes(len: nat, keyOrder: seq<int>) returns (r: seq<int>)
    requires KeyOrder(keyOrder)
    ensures r == DecryptOrder(len, keyOrder)
  {
    var k := |keyOrder|;
    var result := new int[len](_ => 0);
    var columnLength := len / k;
    RowsFit(len, k);
    for col := 0 to k
      invariant DecFilled(result[..], keyOrder, columnLength * k, col, 0)
    {
      for row := 0 to columnLength
        invariant DecFilled(result[..], keyOrder, columnLength * k, col, row)
      {
        DecStep(result[..], keyOrder, columnLength, col, row);
        ghost var before := result[..];
        result[row * k + col] := row * k + keyOrder[col];
        assert result[..] == before[row * k + col := row * k + keyOrder[col]];
      }
      DecColumnDone(result[..], keyOrder, columnLength, col);
    }
    return result[..];
  }

  /* ------------------------------------------------------------------ */
  /*                             the cipher                             */
  /* ------------------------------------------------------------------ */

  /** `encrypt` with key order `ko`. */
  function Encrypted(a: LangAlphabet, ko: seq<int>, msg: string): string
    requires WF(a) && KeyOrder(ko)
  {
    OrdersInRange(LetterCount(a, msg), ko);
    Transposed(a, msg, EncryptOrder(LetterCount(a, msg), ko))
  }

  /** `decrypt` with key order `ko`. */
  function Decrypted(a: LangAlphabet, ko: seq<int>, msg: string): string
    requires WF(a) && KeyOrder(ko)
  {
    OrdersInRange(LetterCount(a, msg), ko);
    Transposed(a, msg, DecryptOrder(LetterCount(a, msg), ko))
  }

  /**
   * On a message of plain letters that fills whole rows, decryption undoes
   * encryption and encryption undoes decryption.
   */
  lemma RoundTrip(a: LangAlphabet, ko: seq<int>, msg: string)
    requires WF(a) && PlainLetters(a, msg) && KeyOrder(ko) && LetterCount(a, msg) % |ko| == 0
    ensures Decrypted(a, ko, Encrypted(a, ko, msg)) == msg
    ensures Encrypted(a, ko, Decrypted(a, ko, msg)) == msg
  {
    var len := LetterCount(a, msg);
    Orders(len, ko);
    OrdersInRange(len, ko);
    TransposedRoundTrip(a, msg, EncryptOrder(len, ko), DecryptOrder(len, ko));
    TransposedRoundTrip(a, msg, DecryptOrder(len, ko), EncryptOrder(len, ko));
  }

  /**
   * Non-letters keep their places and letters their case; a letter past
   * the last whole row takes the code point of the first letter.
   */
  lemma UnevenTail(a: LangAlphabet, ko: seq<int>, msg: string)
    requires WF(a) && KeyOrder(ko)
    ensures |Encrypted(a, ko, msg)| == |msg|
    ensures forall i :: 0 <= i < |msg| && !IsLetter(a, msg[i]) ==> Encrypted(a, ko, msg)[i] == msg[i]
    ensures forall i :: 0 <= i < |msg| && IsLetter(a, msg[i]) ==>
      IsLetter(a, Encrypted(a, ko, msg)[i]) && (IsUpper(a, Encrypted(a, ko, msg)[i]) <==> IsUpper(a, msg[i]))
    ensures forall i :: 0 <= i < |msg| && IsLetter(a, msg[i]) && LetterCount(a, msg[..i]) >= LetterCount(a, msg) / |ko| * |ko| ==>
      0 < |StringToVec(a, msg)| && GetCp(a, Encrypted(a, ko, msg)[i]) == StringToVec(a, msg)[0]
  {
    OrdersInRange(LetterCount(a, msg), ko);
    TransposedLetters(a, msg, EncryptOrder(LetterCount(a, msg), ko));
  }

  /** The cell `transposition_solve` reads for row `row` and column `col`: `row * key_len + col`. */
  function BlockCell(row: int, col: int, k: int, rows: int): int {
    row * k + col
  }

  /** Every cell of the grid lies inside it, and `decrypt_indexes` is an index map for every key order. */
  lemma SolverReady()
    ensures ReadsInside(BlockCell) && IndexMaker(DecryptOrder)
  {
    forall row, col, k, rows | 0 <= row < rows && 0 <= col < k ensures 0 <= BlockCell(row, col, k, rows) < rows * k {
      CellInside(k, rows, row, col);
    }
    forall len: nat, key: seq<int> | 0 < |key| && IsPermutation(key)
      ensures DecryptOrder.requires(len, key) && |DecryptOrder(len, key)| == len && InRange(DecryptOrder(len, key), len)
    {
      OrdersInRange(len, key);
    }
  }

  class BlockTransposition {
    const keyword: Keyword

    /** `new`: a fresh keyword, `[0]`. */
    constructor ()
      ensures fresh(keyword) && keyword.value == [0]
    {
      keyword := new Keyword();
    }

    /** `reset`: the keyword goes back to `[0]`. */
    method Reset()
      modifies keyword
      ensures keyword.value == [0]
    {
      keyword.Reset();
    }

    /** `randomize`: a random keyword of 3 to 11 letters; the draws are parameters. */
    method Randomize(length: nat, draws: seq<int>, cpCount: int)
      requires 3 <= length < 12 && |draws| == length && InRange(draws, cpCount)
      modifies keyword
      ensures keyword.value == draws
    {
      keyword.Randomize(length, draws, cpCount);
    }

    /** `encrypt` with `find_order` of the keyword. */
    method Encrypt(a: LangAlphabet, msg: string) returns (r: string)
      requires WF(a) && |keyword.value| > 0 && forall i :: 0 <= i < |keyword.value| ==> keyword.value[i] >= 0
      ensures r == Encrypted(a, KeyOrderOf(keyword.value), msg)
    {
      var plaintext := StringToVec(a, msg);
      StringToVecProps(a, msg);
      var keyOrder := FindOrder(keyword.value);
      OrderIsPermutation(keyword.value);
      var idx := EncryptIndexes(|plaintext|, keyOrder);
      OrdersInRange(|plaintext|, keyOrder);
      GatheredRange(plaintext, idx, CpCount(a));
      r := Relettered(a, msg, Gathered(plaintext, idx));
    }

    /** `decrypt` with `find_order` of the keyword. */
    method Decrypt(a: LangAlphabet, msg: string) returns (r: string)
      requires WF(a) && |keyword.value| > 0 && forall i :: 0 <= i < |keyword.value| ==> keyword.value[i] >= 0
      ensures r == Decrypted(a, KeyOrderOf(keyword.value), msg)
    {
      var ciphertext := StringToVec(a, msg);
      StringToVecProps(a, msg);
      var keyOrder := FindOrder(keyword.value);
      OrderIsPermutation(keyword.value);
      var idx := DecryptIndexes(|ciphertext|, keyOrder);
      OrdersInRange(|ciphertext|, keyOrder);
      GatheredRange(ciphertext, idx, CpCount(a));
      r := Relettered(a, msg, Gathered(ciphertext, idx));
    }

    /**
     * `solve`: `transposition_solve` over the rows of the grid, and the
     * key it finds becomes the keyword. That key is a column order, so it
     * is its own `find_order` and encryption uses it as it stands.
     */
    method Solve(a: LangAlphabet, msg: string, bigrams: seq<real>, lo: real, score: seq<int> -> real)
      returns (ghost keys: seq<seq<int>>, ghost scores: seq<real>)
      requires WF(a) && BigramReady(StringToVec(a, msg), bigrams) && BigramsAbove(StringToVec(a, msg), bigrams, lo)
      requires ScoreAbove(score)
      modifies keyword
      ensures (SolverReady();
        Tried(StringToVec(a, msg), bigrams, BlockCell, score, DecryptOrder, keys, scores,
              Schedule(MinInt(3, |StringToVec(a, msg)|), MinInt(15, |StringToVec(a, msg)|))))
      ensures |StringToVec(a, msg)| <= 3 ==> keyword.value == []
      ensures |StringToVec(a, msg)| > 3 ==>
        (exists j :: FirstBest(scores, j) && keyword.value == keys[j])
        && KeyOrder(keyword.value) && OrderOf(keyword.value) == keyword.value
    {
      var ciphertext := StringToVec(a, msg);
      SolverReady();
      var key;
      key, keys, scores := TranspositionSolve(ciphertext, bigrams, lo, score, DecryptOrder, BlockCell);
      keyword.SetKey(key);
      if |ciphertext| > 3 {
        ghost var j :| FirstBest(scores, j) && key == keys[j];
        assert GridFor(ciphertext, bigrams, BlockCell, Schedule(MinInt(3, |ciphertext|), MinInt(15, |ciphertext|))[j].0).k > 0;
        OrderOfPermutation(key);
      }
    }
  }
}
