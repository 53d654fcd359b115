/**
 * The rail fence cipher (`src/cipher/transpos/railfence.rs`). The letters
 * are written in a zig-zag over `num_rails` rails, one column per letter,
 * and read back rail by rail. `encrypt_indexes` lists the columns rail by
 * rail; `decrypt_indexes` numbers the cells rail by rail and reads the
 * numbers back along the zig-zag.
 *
 * As written, the zig-zag turns at rail 0 and at rail `num_rails - 1`;
 * with a single rail, the number `new` and `reset` set, it turns only at
 * column 0, on row 0, and then keeps moving down, so column 1 is written
 * on row 1, outside the one-rail matrix.
 * `ZigZag` models the walk as written and `OneRailOverruns` shows the
 * overrun; the corrected walk `Walk`, read through `Rail`, keeps a single rail in place, which
 * makes the cipher the identity there, and that is what the rest uses.
 */
module Railfence {
  import opened Wrappers
  import opened Permutations
  import opened Util
  import opened LangAlphabets
  import opened Languages
  import opened Letterwise
  import opened Transpositions

  /* ------------------------------------------------------------------ */
  /*                               the zig-zag                          */
  /* ------------------------------------------------------------------ */

  /** One column of the walk: turn at rail 0 or rail `n - 1`, then move. */
  function Stepped(n: int, s: (int, int)): (int, int) {
    var inc := if s.0 == 0 || s.0 == n - 1 then -s.1 else s.1;
    (s.0 + inc, inc)
  }

  /** `(row, increment)` at column `c`, as the source's walk computes it. */
  function ZigZag(n: int, c: nat): (int, int) {
    if c == 0 then (0, -1) else Stepped(n, ZigZag(n, c - 1))
  }

  /**
   * With at least two rails the walk stays on the rails, heading down from
   * rail 0 and up from the last one.
   */
  lemma {:induction false} ZigZagInside(n: int, c: nat)
    requires n >= 2
    ensures 0 <= ZigZag(n, c).0 < n && (ZigZag(n, c).1 == 1 || ZigZag(n, c).1 == -1)
    ensures ZigZag(n, c).0 == 0 ==> ZigZag(n, c).1 == -1
    ensures ZigZag(n, c).0 == n - 1 ==> ZigZag(n, c).1 == 1
  {
    if c > 0 {
      ZigZagInside(n, c - 1);
    }
  }

  /** Some column of a message of `len` letters falls outside the `n` rails of the matrix. */
  predicate Overruns(n: int, len: nat) {
    exists c :: 0 <= c < len && !(0 <= ZigZag(n, c).0 < n)
  }

  /**
   * Cell `(row, col)` of the rail-major buffer of `n · len` entries is entry
   * `row · len + col`; for a column of the message that entry lies in the
   * buffer exactly when the row is one of the `n` rails.
   */
  lemma FlatIndexInside(n: int, len: int, row: int, col: int)
    requires 0 <= n && 0 <= col < len
    ensures 0 <= row * len + col < n * len <==> 0 <= row < n
  {
    if row < 0 {
      assert row * len <= -len;
    } else if row >= n {
      assert row * len >= n * len;
    } else {
      assert (row + 1) * len <= n * len;
    }
  }

  /**
   * As written, a single rail sends column 1 to row 1, past the end of the
   * one-rail matrix, so `encrypt_indexes` and `decrypt_indexes` index out
   * of bounds on any message of two or more letters.
   */
  lemma OneRailOverruns(len: nat)
    requires len >= 2
    ensures ZigZag(1, 1) == (1, 1) && Overruns(1, len)
    ensures 1 * len + 1 >= 1 * len
  {
    assert !(0 <= ZigZag(1, 1).0 < 1);
  }

  /** With two rails or more the walk as written never leaves the matrix. */
  lemma ManyRailsInside(n: int, len: nat)
    requires n >= 2
    ensures !Overruns(n, len)
  {
    forall c | 0 <= c < len ensures 0 <= ZigZag(n, c).0 < n {
      ZigZagInside(n, c);
    }
  }

  /** The corrected walk: a single rail stays on rail 0. */
  function Walk(n: int, c: nat): (int, int) {
    if n == 1 then (0, -1) else ZigZag(n, c)
  }

  /** The rail column `c` is written on. */
  function Rail(n: int, c: nat): (r: int)
    requires n >= 1
    ensures 0 <= r < n
  {
    if n >= 2 then ZigZagInside(n, c); Walk(n, c).0 else Walk(n, c).0
  }

  /** The rail of every column of a message of `len` letters. */
  function RailKeys(n: int, len: nat): (r: seq<int>)
    requires n >= 1
    ensures |r| == len && InRange(r, n)
  {
    seq(len, c requires 0 <= c < len => Rail(n, c))
  }

  /** `encrypt_indexes`: the columns listed rail by rail. */
  function EncryptOrder(n: int, len: nat): seq<int>
    requires n >= 1
  {
    Listed(RailKeys(n, len), n)
  }

  /** `decrypt_indexes`: the place each column takes in that listing. */
  function DecryptOrder(n: int, len: nat): seq<int>
    requires n >= 1
  {
    OrderOf(RailKeys(n, len))
  }

  /**
   * Both index maps are permutations of `0..len`, each undoing the other:
   * `decrypt_indexes` is `invert(encrypt_indexes)` and the other way round.
   */
  lemma Orders(n: int, len: nat)
    requires n >= 1
    ensures IsPermutation(EncryptOrder(n, len)) && IsPermutation(DecryptOrder(n, len))
    ensures |EncryptOrder(n, len)| == |DecryptOrder(n, len)| == len
    ensures DecryptOrder(n, len) == Inverted(EncryptOrder(n, len))
    ensures EncryptOrder(n, len) == Inverted(DecryptOrder(n, len))
    ensures forall x :: 0 <= x < len ==> EncryptOrder(n, len)[DecryptOrder(n, len)[x]] == x
    ensures forall x :: 0 <= x < len ==> DecryptOrder(n, len)[EncryptOrder(n, len)[x]] == x
  {
    var keys := RailKeys(n, len);
    ListedInverts(keys, n);
    LeftInverse(OrderOf(keys), Listed(keys, n));
  }

  /** With a single rail both index maps are the identity, so the cipher changes nothing. */
  lemma OneRailIdentity(len: nat)
    ensures EncryptOrder(1, len) == Identity(len) && DecryptOrder(1, len) == Identity(len)
  {
    var keys := RailKeys(1, len);
    Orders(1, len);
    forall c | 0 <= c < len ensures OrderOf(keys)[c] == c {
      CountLessNone(keys, 0);
      CountEqAll(keys[..c]);
    }
    InverseUnique(Identity(len), Listed(keys, 1));
    assert Inverted(Identity(len)) == Identity(len) by {
      InverseUnique(Identity(len), Identity(len));
    }
  }

  /** Every entry of `s` is 0, so `CountEq(s, 0)` counts them all. */
  lemma {:induction false} CountEqAll(s: seq<int>)
    requires forall i :: 0 <= i < |s| ==> s[i] == 0
    ensures CountEq(s, 0) == |s|
  {
    if s != [] {
      CountEqAll(s[..|s| - 1]);
    }
  }

  /* ------------------------------------------------------------------ */
  /*                        the index matrix, in place                  */
  /* ------------------------------------------------------------------ */

  /** After the first `upTo` columns of the walk, cell `(r, c)` holds `mark(c)` on the column's rail and -1 elsewhere. */
  predicate Marked(m: array2<int>, keys: seq<int>, upTo: int, useCol: bool)
    reads m
  {
    m.Length1 == |keys| &&
    forall r, c :: 0 <= r < m.Length0 && 0 <= c < m.Length1 ==>
      m[r, c] == (if c < upTo && keys[c] == r then (if useCol then c else -2) else -1)
  }

  /**
   * The first walk over the columns: write `col` (for `encrypt_indexes`)
   * or -2 (for `decrypt_indexes`) into the cell of each column's rail.
   */
  method MarkWalk(m: array2<int>, n: int, useCol: bool)
    requires n >= 1 && m.Length0 == n
    requires forall r, c :: 0 <= r < m.Length0 && 0 <= c < m.Length1 ==> m[r, c] == -1
    modifies m
    ensures Marked(m, RailKeys(n, m.Length1), m.Length1, useCol)
  {
    var len := m.Length1;
    ghost var keys := RailKeys(n, len);
    var row, increment := 0, -1;
    for col := 0 to len
      invariant (row, increment) == Walk(n, col)
      invariant Marked(m, keys, col, useCol)
    {
      assert row == Rail(n, col);
      m[row, col] := if useCol then col else -2;
      if n > 1 {
        if row == 0 || row == n - 1 {
          increment := -increment;
        }
        row := row + increment;
      }
    }
  }

  /** The second pass of `encrypt_indexes`: rail by rail, collect the columns marked there. */
  method CollectRails(m: array2<int>, n: int) returns (result: seq<int>)
    requires n >= 1 && m.Length0 == n && Marked(m, RailKeys(n, m.Length1), m.Length1, true)
    ensures result == Listed(RailKeys(n, m.Length1), n)
  {
    var len := m.Length1;
    ghost var keys := RailKeys(n, len);
    result := [];
    for row := 0 to n
      invariant result == Listed(keys, row)
    {
      for col := 0 to len
        invariant result == Listed(keys, row) + Members(keys, row, col)
      {
        if m[row, col] != -1 {
          result := result + [m[row, col]];
        }
      }
    }
  }

  /** `encrypt_indexes` with the corrected walk. */
  method EncryptIndexes(n: int, len: nat) returns (result: seq<int>)
    requires n >= 1
    ensures result == EncryptOrder(n, len)
  {
    var matrix := new int[n, len]((r, c) => -1);
    MarkWalk(matrix, n, true);
    result := CollectRails(matrix, n);
  }

  /** Cell `(r, c)` holds column `c`'s place in the rail-by-rail listing once numbered, -2 before, and -1 off the zig-zag. */
  predicate Numbered(m: array2<int>, keys: seq<int>, row: int, col: int)
    reads m
  {
    m.Length1 == |keys| && (forall i :: 0 <= i < |keys| ==> keys[i] >= 0) &&
    forall r, c :: 0 <= r < m.Length0 && 0 <= c < m.Length1 ==>
      m[r, c] == (if keys[c] != r then -1 else if r < row || (r == row && c < col) then Rank(keys, c) else -2)
  }

  /** The rank of a column on rail `row`, numbered after the rails above and the columns before it. */
  lemma NumberStep(keys: seq<int>, row: nat, col: nat)
    requires forall i :: 0 <= i < |keys| ==> keys[i] >= 0
    requires col < |keys| && keys[col] == row
    ensures Rank(keys, col) == |Listed(keys, row)| + |Members(keys, row, col)| >= 0
  {
    RankSplit(keys, col);
  }

  /** The second pass of `decrypt_indexes`: number the marked cells rail by rail. */
  method NumberRails(m: array2<int>, n: int)
    requires n >= 1 && m.Length0 == n && Marked(m, RailKeys(n, m.Length1), m.Length1, false)
    modifies m
    ensures Numbered(m, RailKeys(n, m.Length1), n, 0)
  {
    var len := m.Length1;
    ghost var keys := RailKeys(n, len);
    var idx := 0;
    for row := 0 to n
      invariant Numbered(m, keys, row, 0) && idx == |Listed(keys, row)|
    {
      for col := 0 to len
        invariant Numbered(m, keys, row, col) && idx == |Listed(keys, row)| + |Members(keys, row, col)|
      {
        if m[row, col] == -2 {
          NumberStep(keys, row, col);
          m[row, col] := idx;
          idx := idx + 1;
        }
      }
      assert Listed(keys, row + 1) == Listed(keys, row) + Members(keys, row, len);
    }
  }

  /** The last pass of `decrypt_indexes`: read the numbers back along the zig-zag. */
  method ReadWalk(m: array2<int>, n: int) returns (result: seq<int>)
    requires n >= 1 && m.Length0 == n && Numbered(m, RailKeys(n, m.Length1), n, 0)
    ensures result == OrderOf(RailKeys(n, m.Length1))
  {
    var len := m.Length1;
    ghost var keys := RailKeys(n, len);
    result := [];
    var row, increment := 0, -1;
    for col := 0 to len
      invariant (row, increment) == Walk(n, col)
      invariant result == OrderOf(keys)[..col]
    {
      assert row == Rail(n, col) == keys[col];
      result := result + [m[row, col]];
      assert OrderOf(keys)[..col + 1] == OrderOf(keys)[..col] + [Rank(keys, col)];
      if n > 1 {
        if row == 0 || row == n - 1 {
          increment := -increment;
        }
        row := row + increment;
      }
    }
    assert OrderOf(keys)[..len] == OrderOf(keys);
  }

  /** `decrypt_indexes` with the corrected walk. */
  method DecryptIndexes(n: int, len: nat) returns (result: seq<int>)
    requires n >= 1
    ensures result == DecryptOrder(n, len)
  {
    var matrix := new int[n, len]((r, c) => -1);
    MarkWalk(matrix, n, false);
    NumberRails(matrix, n);
    result := ReadWalk(matrix, n);
  }

  /* ------------------------------------------------------------------ */
  /*                             the cipher                             */
  /* ------------------------------------------------------------------ */

  /** `encrypt` with `n` rails. */
  function Encrypted(a: LangAlphabet, n: int, msg: string): string
    requires WF(a) && n >= 1
  {
    Orders(n, LetterCount(a, msg));
    Transposed(a, msg, EncryptOrder(n, LetterCount(a, msg)))
  }

  /** `decrypt` with `n` rails. */
  function Decrypted(a: LangAlphabet, n: int, msg: string): string
    requires WF(a) && n >= 1
  {
    Orders(n, LetterCount(a, msg));
    Transposed(a, msg, DecryptOrder(n, LetterCount(a, msg)))
  }

  /**
   * Decryption undoes encryption and encryption undoes decryption, for any
   * number of rails and any message of plain letters.
   */
  lemma RoundTrip(a: LangAlphabet, n: int, msg: string)
    requires WF(a) && PlainLetters(a, msg) && n >= 1
    ensures Decrypted(a, n, Encrypted(a, n, msg)) == msg
    ensures Encrypted(a, n, Decrypted(a, n, msg)) == msg
  {
    var len := LetterCount(a, msg);
    Orders(n, len);
    TransposedRoundTrip(a, msg, EncryptOrder(n, len), DecryptOrder(n, len));
    TransposedRoundTrip(a, msg, DecryptOrder(n, len), EncryptOrder(n, len));
  }

  /** Non-letters keep their positions and letters their case. */
  lemma NonLettersStay(a: LangAlphabet, n: int, msg: string)
    requires WF(a) && n >= 1
    ensures |Encrypted(a, n, msg)| == |msg|
    ensures forall i :: 0 <= i < |msg| && !IsLetter(a, msg[i]) ==> Encrypted(a, n, msg)[i] == msg[i]
    ensures forall i :: 0 <= i < |msg| && IsLetter(a, msg[i]) ==>
      IsLetter(a, Encrypted(a, n, msg)[i]) && (IsUpper(a, Encrypted(a, n, msg)[i]) <==> IsUpper(a, msg[i]))
  {
    Orders(n, LetterCount(a, msg));
    TransposedLetters(a, msg, EncryptOrder(n, LetterCount(a, msg)));
  }

  /** The score `solve` gives `n` rails: the scorer on the ciphertext read through `decrypt_indexes`. */
  function RailScore(ct: seq<int>, score: seq<int> -> F64, n: int): F64
    requires n >= 1
  {
    Orders(n, |ct|);
    score(Gathered(ct, DecryptOrder(n, |ct|)))
  }

  class Railfence {
    var numRails: int

    /** `new`: one rail. */
    constructor ()
      ensures numRails == 1
    {
      numRails := 1;
    }

    /** `reset`: back to one rail. */
    method Reset()
      modifies this
      ensures numRails == 1
    {
      numRails := 1;
    }

    /** `randomize`: `draw` stands for `gen_range(1..20)`. */
    method Randomize(draw: int)
      requires 1 <= draw < 20
      modifies this
      ensures numRails == draw
    {
      numRails := draw;
    }

    /** `encrypt`: the `k`-th letter takes the code point of letter `encrypt_indexes[k]`. */
    method Encrypt(a: LangAlphabet, msg: string) returns (r: string)
      requires WF(a) && numRails >= 1
      ensures r == Encrypted(a, numRails, msg)
    {
      var plaintext := StringToVec(a, msg);
      StringToVecProps(a, msg);
      var idx := EncryptIndexes(numRails, |plaintext|);
      Orders(numRails, |plaintext|);
      GatheredRange(plaintext, idx, CpCount(a));
      r := Relettered(a, msg, Gathered(plaintext, idx));
    }

    /** `decrypt`: the `k`-th letter takes the code point of letter `decrypt_indexes[k]`. */
    method Decrypt(a: LangAlphabet, msg: string) returns (r: string)
      requires WF(a) && numRails >= 1
      ensures r == Decrypted(a, numRails, msg)
    {
      var ciphertext := StringToVec(a, msg);
      StringToVecProps(a, msg);
      var idx := DecryptIndexes(numRails, |ciphertext|);
      Orders(numRails, |ciphertext|);
      GatheredRange(ciphertext, idx, CpCount(a));
      r := Relettered(a, msg, Gathered(ciphertext, idx));
    }

    /**
     * `solve`: try 2 to 49 rails and keep the first that scores best;
     * `scores[i]` is the score of `i + 2` rails. The running best starts
     * at `f64::MIN` and moves on a strict `>`, so when every trial scores
     * `f64::MIN` the number of rails stays what it was.
     */
    method Solve(a: LangAlphabet, msg: string, score: seq<int> -> F64) returns (ghost scores: seq<real>)
      requires WF(a)
      modifies this
      ensures |scores| == 48
      ensures forall i :: 0 <= i < 48 ==> scores[i] == RailScore(StringToVec(a, msg), score, i + 2)
      ensures (exists i :: 0 <= i < 48 && scores[i] > F64Min) ==> FirstBest(scores, numRails - 2)
      ensures (forall i :: 0 <= i < 48 ==> scores[i] == F64Min) ==> numRails == old(numRails)
    {
      var ciphertext := StringToVec(a, msg);
      var best;
      best, scores := BestRails(ciphertext, score, numRails);
      numRails := best;
    }
  }

  /** One trial of `solve`: the score of the ciphertext read through `decrypt_indexes` with `n` rails. */
  method TryRails(ciphertext: seq<int>, score: seq<int> -> F64, n: int) returns (s: real)
    requires n >= 1
    ensures s == RailScore(ciphertext, score, n)
  {
    var idx := DecryptIndexes(n, |ciphertext|);
    Orders(n, |ciphertext|);
    s := score(Gathered(ciphertext, idx));
  }

  /**
   * The loop of `solve`: the first number of rails in `2..50` whose
   * decryption scores best, or the current `rails0` when none scores above
   * `f64::MIN`.
   */
  method BestRails(ciphertext: seq<int>, score: seq<int> -> F64, rails0: int) returns (best: int, ghost scores: seq<real>)
    ensures |scores| == 48
    ensures forall i :: 0 <= i < 48 ==> scores[i] == RailScore(ciphertext, score, i + 2)
    ensures (exists i :: 0 <= i < 48 && scores[i] > F64Min) ==> FirstBest(scores, best - 2)
    ensures (forall i :: 0 <= i < 48 ==> scores[i] == F64Min) ==> best == rails0
  {
    var bestScore := F64Min;
    best := rails0;
    scores := [];
    for n := 2 to 50
      invariant |scores| == n - 2
      invariant forall i :: 0 <= i < n - 2 ==> scores[i] == RailScore(ciphertext, score, i + 2)
      invariant KeptCount(scores, best, bestScore, rails0)
    {
      var s := TryRails(ciphertext, score, n);
      KeptCountSnoc(scores, best, bestScore, rails0, s);
      if s > bestScore {
        bestScore := s;
        best := n;
      }
      scores := scores + [s];
    }
    KeptCountOutcome(scores, best, bestScore, rails0);
  }
}
