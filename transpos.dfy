/**
 * What the transposition ciphers (`src/cipher/transpos/`) share. Each one
 * computes an index map over the letters of the message and gives the
 * `k`-th letter the code point of letter `idx[k]`, in its own case; every
 * other character stays where it is.
 *
 * Rail fence and scytale number the letters group by group (a rail, a
 * face): listing the groups one after another gives one direction, and
 * the rank each position gets in that listing, `find_order` of the groups,
 * gives the other. The greedy column-order search `transposition_solve`
 * serves block and column transposition.
 */
module Transpositions {
  import opened Permutations
  import opened Util
  import opened LangAlphabets
  import opened Languages
  import opened Letterwise
  import opened Arith
  import VigSolver

  /* ------------------------------------------------------------------ */
  /*                      moving letters by an index map                */
  /* ------------------------------------------------------------------ */

  /** `p[idx[k]]` for each `k`: the code points an index map gathers. */
  function Gathered(p: seq<int>, idx: seq<int>): (r: seq<int>)
    requires InRange(idx, |p|)
    ensures |r| == |idx|
  {
    seq(|idx|, k requires 0 <= k < |idx| => p[idx[k]])
  }

  lemma GatheredRange(p: seq<int>, idx: seq<int>, n: int)
    requires InRange(idx, |p|) && InRange(p, n)
    ensures InRange(Gathered(p, idx), n)
  {
  }

  /**
   * `encrypt` or `decrypt` of a transposition cipher with index map `idx`:
   * the `k`-th letter takes the code point of letter `idx[k]`.
   */
  function Transposed(a: LangAlphabet, msg: string, idx: seq<int>): (r: string)
    requires WF(a) && |idx| == LetterCount(a, msg) && InRange(idx, LetterCount(a, msg))
  {
    StringToVecProps(a, msg);
    GatheredRange(StringToVec(a, msg), idx, CpCount(a));
    Relettered(a, msg, Gathered(StringToVec(a, msg), idx))
  }

  /**
   * Non-letters keep their positions; the letter at position `i`, the
   * `k`-th letter, keeps its case and takes the code point of letter
   * `idx[k]`.
   */
  lemma TransposedLetters(a: LangAlphabet, msg: string, idx: seq<int>)
    requires WF(a) && |idx| == LetterCount(a, msg) && InRange(idx, LetterCount(a, msg))
    ensures |Transposed(a, msg, idx)| == |msg| && |StringToVec(a, msg)| == LetterCount(a, msg)
    ensures forall i :: 0 <= i < |msg| && !IsLetter(a, msg[i]) ==> Transposed(a, msg, idx)[i] == msg[i]
    ensures forall i :: 0 <= i < |msg| && IsLetter(a, msg[i]) ==>
      LetterCount(a, msg[..i]) < |idx| && IsLetter(a, Transposed(a, msg, idx)[i])
      && (IsUpper(a, Transposed(a, msg, idx)[i]) <==> IsUpper(a, msg[i]))
      && GetCp(a, Transposed(a, msg, idx)[i]) == StringToVec(a, msg)[idx[LetterCount(a, msg[..i])]]
  {
    StringToVecProps(a, msg);
    var p := StringToVec(a, msg);
    GatheredRange(p, idx, CpCount(a));
    var c := Gathered(p, idx);
    ReletteredAt(a, msg, c);
    ReletteredLetters(a, msg, c);
  }

  /**
   * When `e[d[x]] == x` for every letter position, transposing by `e`
   * and then by `d` gives the message back, on a message of plain letters.
   */
  lemma TransposedRoundTrip(a: LangAlphabet, msg: string, e: seq<int>, d: seq<int>)
    requires WF(a) && PlainLetters(a, msg)
    requires |e| == |d| == LetterCount(a, msg) && InRange(e, |e|) && InRange(d, |d|)
    requires forall x :: 0 <= x < |d| ==> e[d[x]] == x
    ensures LetterCount(a, Transposed(a, msg, e)) == LetterCount(a, msg)
    ensures Transposed(a, Transposed(a, msg, e), d) == msg
  {
    StringToVecProps(a, msg);
    var p := StringToVec(a, msg);
    GatheredRange(p, e, CpCount(a));
    var c := Gathered(p, e);
    ReletteredUndone(a, msg, c);
    var m := Relettered(a, msg, c);
    assert Gathered(c, d) == p;
  }

  /* ------------------------------------------------------------------ */
  /*                     index maps and their inverses                  */
  /* ------------------------------------------------------------------ */

  /** A sequence that undoes a permutation on the left is its inverse. */
  lemma InverseUnique(p: seq<int>, q: seq<int>)
    requires IsPermutation(p) && |q| == |p|
    requires forall i :: 0 <= i < |p| ==> q[p[i]] == i
    ensures q == Inverted(p)
  {
    InvertedIsInverse(p);
    forall v | 0 <= v < |p| ensures q[v] == Inverted(p)[v] {
      PermutationCovers(p, v);
      var i :| 0 <= i < |p| && p[i] == v;
    }
  }

  /**
   * Two index maps over `0..n` with `e[d[x]] == x` everywhere are both
   * permutations, each the inverse of the other.
   */
  lemma LeftInverse(e: seq<int>, d: seq<int>)
    requires |e| == |d| && InRange(e, |e|) && InRange(d, |d|)
    requires forall x :: 0 <= x < |d| ==> e[d[x]] == x
    ensures IsPermutation(d) && IsPermutation(e)
    ensures e == Inverted(d)
    ensures forall x :: 0 <= x < |e| ==> d[e[x]] == x
  {
    forall x, y | 0 <= x < y < |d| ensures d[x] != d[y] {
      assert e[d[x]] == x && e[d[y]] == y;
    }
    InverseUnique(d, e);
    InvertedIsInverse(d);
  }

  /** `q` rises strictly from each position to the next. */
  predicate Rising(q: seq<int>) {
    forall v, w :: 0 <= v < w < |q| ==> q[v] < q[w]
  }

  /** A rising sequence of values in `0..|q|` starts no lower than its positions… */
  lemma {:induction false} RisingAtLeast(q: seq<int>, v: nat)
    requires Rising(q) && InRange(q, |q|) && v < |q|
    ensures q[v] >= v
  {
    if v > 0 {
      RisingAtLeast(q, v - 1);
    }
  }

  /** …and ends no higher. */
  lemma {:induction false} RisingAtMost(q: seq<int>, v: nat)
    requires Rising(q) && InRange(q, |q|) && v < |q|
    ensures q[v] <= v
    decreases |q| - v
  {
    if v + 1 < |q| {
      RisingAtMost(q, v + 1);
    }
  }

  /**
   * `find_order` of a permutation is the permutation itself: a key that
   * is already a column order is used as it stands.
   */
  lemma OrderOfPermutation(p: seq<int>)
    requires IsPermutation(p)
    ensures OrderOf(p) == p
  {
    var o := OrderOf(p);
    OrderIsPermutation(p);
    InvertedIsInverse(p);
    var inv := Inverted(p);
    var q := seq(|p|, v requires 0 <= v < |p| => o[inv[v]]);
    forall v, w | 0 <= v < w < |p| ensures q[v] < q[w] {
      OrderIsStable(p, inv[v], inv[w]);
    }
    forall i | 0 <= i < |p| ensures o[i] == p[i] {
      var v := p[i];
      assert inv[v] == i;
      RisingAtLeast(q, v);
      RisingAtMost(q, v);
    }
  }

  /* ------------------------------------------------------------------ */
  /*                     numbering positions group by group             */
  /* ------------------------------------------------------------------ */

  /** The positions `j < c` of group `g`, left to right. */
  function Members(keys: seq<int>, g: int, c: nat): seq<int>
    requires c <= |keys|
  {
    if c == 0 then [] else Members(keys, g, c - 1) + (if keys[c - 1] == g then [c - 1] else [])
  }

  /** Group `g` has as many members before `c` as `keys[..c]` has entries `g`. */
  lemma {:induction false} MembersCount(keys: seq<int>, g: int, c: nat)
    requires c <= |keys|
    ensures |Members(keys, g, c)| == CountEq(keys[..c], g)
  {
    if c > 0 {
      MembersCount(keys, g, c - 1);
      assert keys[..c][..c - 1] == keys[..c - 1];
    }
  }

  /** The members of the groups `0..g`, one group after another. */
  function Listed(keys: seq<int>, g: nat): seq<int> {
    if g == 0 then [] else Listed(keys, g - 1) + Members(keys, g - 1, |keys|)
  }

  /** A member of group `g` at `j` is listed after the `|Members(keys, g, j)|` before it. */
  lemma {:induction false} MembersAt(keys: seq<int>, g: int, j: nat, c: nat)
    requires j < c <= |keys| && keys[j] == g
    ensures |Members(keys, g, j)| < |Members(keys, g, c)|
    ensures Members(keys, g, c)[|Members(keys, g, j)|] == j
  {
    if c > j + 1 {
      MembersAt(keys, g, j, c - 1);
    }
  }

  /** The listing of the groups below `g` has one entry per position whose group is below `g`. */
  lemma {:induction false} ListedLength(keys: seq<int>, g: nat)
    requires forall j :: 0 <= j < |keys| ==> keys[j] >= 0
    ensures |Listed(keys, g)| == CountLess(keys, g)
  {
    if g == 0 {
      CountLessNone(keys, 0);
    } else {
      ListedLength(keys, g - 1);
      CountLessStep(keys, g - 1);
      MembersCount(keys, g - 1, |keys|);
      assert keys[..|keys|] == keys;
    }
  }

  /** The rank of position `j` counts the groups before its own, then its own group's members before it. */
  lemma {:induction false} RankSplit(keys: seq<int>, j: nat)
    requires forall i :: 0 <= i < |keys| ==> keys[i] >= 0
    requires j < |keys|
    ensures Rank(keys, j) == |Listed(keys, keys[j])| + |Members(keys, keys[j], j)|
  {
    ListedLength(keys, keys[j]);
    MembersCount(keys, keys[j], j);
  }

  /** Within the listing of groups up to `h`, the member at `j` of group `h` follows the earlier groups and members. */
  lemma {:induction false} ListedInGroup(keys: seq<int>, j: nat, h: nat)
    requires j < |keys| && keys[j] == h
    ensures |Listed(keys, h)| + |Members(keys, h, j)| < |Listed(keys, h + 1)|
    ensures Listed(keys, h + 1)[|Listed(keys, h)| + |Members(keys, h, j)|] == j
  {
    MembersAt(keys, h, j, |keys|);
    var l, m, before := Listed(keys, h), Members(keys, h, |keys|), Members(keys, h, j);
    assert Listed(keys, h + 1) == l + m;
    assert (l + m)[|l| + |before|] == m[|before|];
  }

  /** Position `j` stands at its rank in the listing that ends with its own group. */
  lemma {:induction false} ListedAtOwn(keys: seq<int>, j: nat)
    requires forall i :: 0 <= i < |keys| ==> keys[i] >= 0
    requires j < |keys|
    ensures Rank(keys, j) < |Listed(keys, keys[j] + 1)| && Listed(keys, keys[j] + 1)[Rank(keys, j)] == j
  {
    RankSplit(keys, j);
    ListedInGroup(keys, j, keys[j]);
  }

  /** Every position of the groups `0..g` stands in their listing at its rank, the place `find_order` gives it. */
  lemma {:induction false} ListedAt(keys: seq<int>, g: nat)
    requires forall i :: 0 <= i < |keys| ==> keys[i] >= 0
    ensures forall j :: 0 <= j < |keys| && keys[j] < g ==> Rank(keys, j) < |Listed(keys, g)| && Listed(keys, g)[Rank(keys, j)] == j
  {
    if g > 0 {
      ListedAt(keys, g - 1);
      var l, m := Listed(keys, g - 1), Members(keys, g - 1, |keys|);
      assert Listed(keys, g) == l + m;
      forall j | 0 <= j < |keys| && keys[j] < g
        ensures Rank(keys, j) < |l + m| && (l + m)[Rank(keys, j)] == j
      {
        if keys[j] == g - 1 {
          ListedAtOwn(keys, j);
        }
      }
    }
  }

  /**
   * With every group in `0..n`, the listing of the groups and the rank of
   * each position (`find_order` of the groups) are permutations of the
   * positions, each the inverse of the other.
   */
  lemma ListedInverts(keys: seq<int>, n: nat)
    requires InRange(keys, n)
    ensures IsPermutation(Listed(keys, n)) && IsPermutation(OrderOf(keys))
    ensures Listed(keys, n) == Inverted(OrderOf(keys))
    ensures forall j :: 0 <= j < |keys| ==> Listed(keys, n)[OrderOf(keys)[j]] == j
    ensures forall k :: 0 <= k < |keys| ==> OrderOf(keys)[Listed(keys, n)[k]] == k
  {
    var l, o := Listed(keys, n), OrderOf(keys);
    ListedLength(keys, n);
    CountLessAll(keys, n);
    OrderIsPermutation(keys);
    ListedAt(keys, n);
    InverseUnique(o, l);
    InvertedIsInverse(o);
  }

  /* ------------------------------------------------------------------ */
  /*                      choosing the best of several                  */
  /* ------------------------------------------------------------------ */

  /** `f64::MIN`, where every running best score starts. */
  const F64Min: real := VigSolver.F64Min

  /** A finite `f64`, the type of the scorer's values. */
  type F64 = VigSolver.F64

  /** The scorer rates every sequence above `f64::MIN`. */
  ghost predicate ScoreAbove(score: seq<int> -> real) {
    forall p :: score(p) > F64Min
  }

  /**
   * Score `j` is a largest one and every earlier score is strictly
   * smaller: the one a running best updated on a strict `>` ends with.
   */
  predicate FirstBest(scores: seq<real>, j: int) {
    0 <= j < |scores|
    && (forall i :: 0 <= i < |scores| ==> scores[i] <= scores[j])
    && (forall i :: 0 <= i < j ==> scores[i] < scores[j])
  }

  /** A strict improvement makes the new score the first best; anything else keeps the old one. */
  lemma FirstBestSnoc(scores: seq<real>, j: int, s: real)
    requires FirstBest(scores, j)
    ensures s > scores[j] ==> FirstBest(scores + [s], |scores|)
    ensures s <= scores[j] ==> FirstBest(scores + [s], j)
  {
    var ss := scores + [s];
    assert forall i :: 0 <= i < |scores| ==> ss[i] == scores[i];
  }

  /**
   * The running best of a strict `>` comparison, started at `f64::MIN`
   * over scores above it: after the first score it always holds the first
   * best.
   */
  lemma FirstBestStep(scores: seq<real>, j: int, best: real, s: real)
    requires s > F64Min
    requires scores == [] ==> best == F64Min
    requires scores != [] ==> FirstBest(scores, j) && best == scores[j]
    ensures s > best ==> FirstBest(scores + [s], |scores|)
    ensures s <= best ==> scores != [] && FirstBest(scores + [s], j)
  {
    if scores != [] {
      FirstBestSnoc(scores, j, s);
    }
  }

  /**
   * The running best of a strict `>` started at `f64::MIN`, over scores
   * that are finite `f64` values: it is still `f64::MIN` while no score has
   * risen above that, and otherwise score `j`, the first best.
   */
  predicate Kept(scores: seq<real>, j: int, best: real) {
    && (forall i :: 0 <= i < |scores| ==> F64Min <= scores[i])
    && if best == F64Min then forall i :: 0 <= i < |scores| ==> scores[i] == F64Min
       else FirstBest(scores, j) && best == scores[j]
  }

  /** A score above the running best becomes the first best; any other keeps it. */
  lemma KeptSnoc(scores: seq<real>, j: int, best: real, s: real)
    requires Kept(scores, j, best) && F64Min <= s
    ensures s > best ==> Kept(scores + [s], |scores|, s)
    ensures s <= best ==> Kept(scores + [s], j, best)
  {
    var ss := scores + [s];
    assert forall i :: 0 <= i < |scores| ==> ss[i] == scores[i];
    if best != F64Min {
      FirstBestSnoc(scores, j, s);
    }
  }

  /**
   * The rail-fence and scytale search after `|scores|` trials of the counts
   * 2, 3, ...: `count` is the first best count while some score has risen
   * above `f64::MIN`, and still `count0` while none has.
   */
  predicate KeptCount(scores: seq<real>, count: int, best: real, count0: int) {
    Kept(scores, count - 2, best) && (best == F64Min ==> count == count0)
  }

  /** The trial of count `|scores| + 2` moves the kept count only on a strictly higher score. */
  lemma KeptCountSnoc(scores: seq<real>, count: int, best: real, count0: int, s: real)
    requires KeptCount(scores, count, best, count0) && F64Min <= s
    ensures s > best ==> KeptCount(scores + [s], |scores| + 2, s, count0)
    ensures s <= best ==> KeptCount(scores + [s], count, best, count0)
  {
    KeptSnoc(scores, count - 2, best, s);
  }

  /**
   * Once some score rises above `f64::MIN`, the kept count is the first
   * best; while none does, it is still `count0`.
   */
  lemma KeptCountOutcome(scores: seq<real>, count: int, best: real, count0: int)
    requires KeptCount(scores, count, best, count0)
    ensures (exists i :: 0 <= i < |scores| && scores[i] > F64Min) ==> FirstBest(scores, count - 2)
    ensures (forall i :: 0 <= i < |scores| ==> scores[i] == F64Min) ==> count == count0
  {
    if best != F64Min {
      assert scores[count - 2] != F64Min;
    }
  }

  /* ------------------------------------------------------------------ */
  /*                   the greedy search for a column order             */
  /* ------------------------------------------------------------------ */

  /**
   * The ciphertext laid out as `rows` rows of `k` columns, read through
   * `getIndex(row, col, k, rows)`, with the bigram table it is scored by.
   */
  datatype Grid = Grid(ct: seq<int>, bigrams: seq<real>, getIndex: (int, int, int, int) -> int, k: int, rows: int)

  /** `get_index` sends every cell of a `rows` × `k` grid into `0..rows·k`. */
  ghost predicate ReadsInside(getIndex: (int, int, int, int) -> int) {
    forall row, col, k, rows :: 0 <= row < rows && 0 <= col < k ==> 0 <= getIndex(row, col, k, rows) < rows * k
  }

  /**
   * Code points below 32 and a table of 32 × 32 bigram scores, so that
   * `(c1 << 5) | c2`, that is `c1 · 32 + c2`, indexes it.
   */
  predicate BigramReady(ct: seq<int>, bigrams: seq<real>) {
    |bigrams| == 1024 && InRange(ct, 32)
  }

  /** A grid the search can read: every cell it reads lies in the ciphertext. */
  ghost predicate GridOk(g: Grid) {
    BigramReady(g.ct, g.bigrams) && ReadsInside(g.getIndex) && 0 < g.k && 0 <= g.rows && g.rows * g.k <= |g.ct|
  }

  /** The bigram score of column `c1` followed by column `c2` over the first `r` rows. */
  function Link(g: Grid, c1: int, c2: int, r: nat): real
    requires GridOk(g) && 0 <= c1 < g.k && 0 <= c2 < g.k && r <= g.rows
  {
    if r == 0 then 0.0
    else
      var x, y := g.ct[g.getIndex(r - 1, c1, g.k, g.rows)], g.ct[g.getIndex(r - 1, c2, g.k, g.rows)];
      Link(g, c1, c2, r - 1) + g.bigrams[x * 32 + y]
  }

  /** Every bigram score is at least `lo`, and `|ct|` of them still sum above `f64::MIN`. */
  predicate BigramsAbove(ct: seq<int>, bigrams: seq<real>, lo: real) {
    lo <= 0.0 && (|ct| as real) * lo > F64Min && forall i :: 0 <= i < |bigrams| ==> bigrams[i] >= lo
  }

  /** A sum of `r` bigram scores is at least `r · lo`. */
  lemma {:induction false} LinkAbove(g: Grid, c1: int, c2: int, r: nat, lo: real)
    requires GridOk(g) && 0 <= c1 < g.k && 0 <= c2 < g.k && r <= g.rows
    requires forall i :: 0 <= i < |g.bigrams| ==> g.bigrams[i] >= lo
    ensures Link(g, c1, c2, r) >= (r as real) * lo
  {
    if r > 0 {
      LinkAbove(g, c1, c2, r - 1, lo);
    }
  }

  /** Every total the search compares lies above `f64::MIN`. */
  lemma LinkAboveMin(g: Grid, c1: int, c2: int, lo: real)
    requires GridOk(g) && 0 <= c1 < g.k && 0 <= c2 < g.k && BigramsAbove(g.ct, g.bigrams, lo)
    ensures Link(g, c1, c2, g.rows) > F64Min
  {
    LinkAbove(g, c1, c2, g.rows, lo);
    RowsWithin(g.rows, g.k, |g.ct|);
    RowsBelowLength(g.rows, |g.ct|, lo, Link(g, c1, c2, g.rows));
  }

  /** `rows` sums of at least `lo` each, with `rows <= len`, stay above `f64::MIN` when `len` of them do. */
  lemma RowsBelowLength(rows: nat, len: nat, lo: real, total: real)
    requires rows <= len && lo <= 0.0 && total >= (rows as real) * lo && (len as real) * lo > F64Min
    ensures total > F64Min
  {
    ScaledDown(rows as real, len as real, lo, total);
  }

  /** `len / k` whole rows of `k` columns fit in `len`. */
  lemma RowsFit(len: nat, k: int)
    requires k > 0
    ensures 0 <= len / k && (len / k) * k <= len
  {
    assert len == k * (len / k) + len % k;
  }

  /** Rows of at least one column each, all within `len`, number at most `len`. */
  lemma RowsWithin(rows: int, k: int, len: int)
    requires rows >= 0 && k >= 1 && rows * k <= len
    ensures rows <= len
  {
    assert rows * k == rows * (k - 1) + rows;
  }

  /** A product with a positive factor is positive only when the other factor is. */
  lemma PositiveFactor(a: int, k: int)
    requires k > 0 && a * k > 0
    ensures a > 0
  {
  }

  /** Cell `(r, c)` of a grid of `rows` rows of `k` columns is entry `r · k + c`, and that entry gives the cell back. */
  lemma Cell(k: int, rows: int, r: int, c: int)
    requires 0 <= r < rows && 0 <= c < k
    ensures (r * k + c) / k == r && (r * k + c) % k == c
    ensures 0 <= r * k + c < rows * k
  {
    CellBack(k, r, c);
    CellInside(k, rows, r, c);
  }

  /** Entry `r · k + c`, for a column `c < k`, is in row `r` and column `c`. */
  lemma CellBack(k: int, r: int, c: int)
    requires 0 <= c < k
    ensures (r * k + c) / k == r && (r * k + c) % k == c
  {
    assert r * k + c == k * r + c;
    DivModUnique(r * k + c, k, r, c);
  }

  /** Entry `r · k + c` of a grid lies inside it. */
  lemma CellInside(k: int, rows: int, r: int, c: int)
    requires 0 <= r < rows && 0 <= c < k
    ensures 0 <= r * k + c < rows * k
  {
    assert rows * k - (r * k + c) == (rows - r - 1) * k + (k - c);
    assert (rows - r - 1) * k >= 0;
    assert r * k >= 0;
  }

  /** Entry `p` of such a grid lies in row `p / k` and column `p % k`. */
  lemma CellOf(p: int, k: int, rows: int)
    requires k >= 1 && 0 <= p < rows * k
    ensures 0 <= p / k < rows && 0 <= p % k < k && p == (p / k) * k + p % k
  {
    assert p == k * (p / k) + p % k;
    assert (rows - p / k) * k == rows * k - (p / k) * k;
    PositiveFactor(rows - p / k, k);
  }

  /** A total of at least `x · lo`, with `x ≤ y` and `lo ≤ 0`, is above `f64::MIN` when `y · lo` is. */
  lemma ScaledDown(x: real, y: real, lo: real, total: real)
    requires x <= y && lo <= 0.0 && total >= x * lo && y * lo > F64Min
    ensures total > F64Min
  {
    assert y * lo - x * lo == (y - x) * lo;
  }

  /**
   * `c` is the unused column with the largest total after `c1`, and the
   * lowest such column when several tie.
   */
  ghost predicate BestNext(g: Grid, used: seq<int>, c1: int, c: int)
    requires GridOk(g) && 0 <= c1 < g.k
  {
    0 <= c < g.k && c !in used
    && (forall c' :: 0 <= c' < g.k && c' !in used ==> Link(g, c1, c', g.rows) <= Link(g, c1, c, g.rows))
    && (forall c' :: 0 <= c' < c && c' !in used ==> Link(g, c1, c', g.rows) < Link(g, c1, c, g.rows))
  }

  /**
   * A key the greedy search builds from `start`: a permutation of the
   * `k` columns that begins with `start`, each later column the best
   * unused one after its predecessor.
   */
  ghost predicate Greedy(g: Grid, key: seq<int>, start: int) {
    GridOk(g) && |key| == g.k && IsPermutation(key) && key[0] == start
    && forall j :: 1 <= j < |key| ==> BestNext(g, key[..j], key[j - 1], key[j])
  }

  /** Fewer than `k` distinct columns leave one unused. */
  lemma UnusedExists(key: seq<int>, k: nat) returns (c: int)
    requires Distinct(key) && InRange(key, k) && |key| < k
    ensures 0 <= c < k && c !in key
  {
    if forall c :: 0 <= c < k ==> c in key {
      DistinctElemsCard(key);
      RangeCard(k);
      SubsetCard(Range(k), Elems(key));
      assert false;
    }
    c :| 0 <= c < k && c !in key;
  }

  /** The inner `for row in 0..num_rows` sum of bigram scores. */
  method RowTotal(g: Grid, c1: int, c2: int) returns (total: real)
    requires GridOk(g) && 0 <= c1 < g.k && 0 <= c2 < g.k
    ensures total == Link(g, c1, c2, g.rows)
  {
    total := 0.0;
    for row := 0 to g.rows
      invariant total == Link(g, c1, c2, row)
    {
      var x := g.ct[g.getIndex(row, c1, g.k, g.rows)];
      var y := g.ct[g.getIndex(row, c2, g.k, g.rows)];
      total := total + g.bigrams[x * 32 + y];
    }
  }

  /**
   * One greedy step: over the columns not yet in `key`, left to right,
   * keep the first strictly largest total after the last column of `key`.
   */
  method BestColumn(g: Grid, key: seq<int>, lo: real) returns (maxCol: int)
    requires GridOk(g) && BigramsAbove(g.ct, g.bigrams, lo)
    requires 0 < |key| < g.k && Distinct(key) && InRange(key, g.k)
    ensures BestNext(g, key, key[|key| - 1], maxCol)
  {
    var c1 := key[|key| - 1];
    var maxScore := F64Min;
    maxCol := 0;
    ghost var found := false;
    for col2 := 0 to g.k
      invariant !found ==> maxScore == F64Min && forall c' :: 0 <= c' < col2 ==> c' in key
      invariant found ==> 0 <= maxCol < col2 && maxCol !in key && maxScore == Link(g, c1, maxCol, g.rows)
      invariant found ==> forall c' :: 0 <= c' < col2 && c' !in key ==> Link(g, c1, c', g.rows) <= maxScore
      invariant found ==> forall c' :: 0 <= c' < maxCol && c' !in key ==> Link(g, c1, c', g.rows) < maxScore
    {
      if col2 !in key {
        var total := RowTotal(g, c1, col2);
        LinkAboveMin(g, c1, col2, lo);
        if total > maxScore {
          maxScore := total;
          maxCol := col2;
        }
        found := true;
      }
    }
    if !found {
      var c := UnusedExists(key, g.k);
      assert false;
    }
  }

  /** The prefix of a key grown by one column is the key itself. */
  lemma GrownPrefix(key: seq<int>, c: int, j: int)
    requires 0 <= j <= |key|
    ensures (key + [c])[..j] == key[..j]
  {
  }

  /**
   * The `while key.len() < key_len` loop: start from `start` and keep adding
   * the best unused column after the last one.
   */
  method GreedyKey(g: Grid, start: int, lo: real) returns (key: seq<int>)
    requires GridOk(g) && BigramsAbove(g.ct, g.bigrams, lo) && 0 <= start < g.k
    ensures Greedy(g, key, start)
  {
    key := [start];
    while |key| < g.k
      invariant 0 < |key| <= g.k && Distinct(key) && InRange(key, g.k) && key[0] == start
      invariant forall j :: 1 <= j < |key| ==> BestNext(g, key[..j], key[j - 1], key[j])
      decreases g.k - |key|
    {
      var c := BestColumn(g, key, lo);
      forall j | 1 <= j < |key| + 1
        ensures BestNext(g, (key + [c])[..j], (key + [c])[j - 1], (key + [c])[j])
      {
        GrownPrefix(key, c, j);
        if j == |key| {
          assert key[..j] == key;
        }
      }
      key := key + [c];
    }
  }

  /** The `(key_len, start_col)` pairs the search tries, in order, for key lengths in `lo..hi`. */
  function Schedule(lo: nat, hi: int): (r: seq<(int, int)>)
    decreases hi - lo
  {
    if hi <= lo then [] else Schedule(lo, hi - 1) + seq(hi - 1, s => (hi - 1, s))
  }

  /** A column order of a non-empty keyword, as `find_order` gives it. */
  predicate KeyOrder(ko: seq<int>) {
    |ko| > 0 && IsPermutation(ko)
  }

  /** `find_order` of a non-empty keyword is a column order. */
  function KeyOrderOf(kw: seq<int>): (ko: seq<int>)
    requires |kw| > 0
    ensures KeyOrder(ko) && |ko| == |kw|
  {
    OrderIsPermutation(kw);
    OrderOf(kw)
  }

  /**
   * The decryption index maps the search scores its keys with give one
   * position of the ciphertext per position, for every permutation key.
   */
  ghost predicate IndexMaker(decryptIndexes: (nat, seq<int>) --> seq<int>) {
    forall len: nat, key: seq<int> :: 0 < |key| && IsPermutation(key) ==>
      decryptIndexes.requires(len, key) && |decryptIndexes(len, key)| == len && InRange(decryptIndexes(len, key), len)
  }

  /** The ciphertext laid out for key length `k`, with `len / k` whole rows. */
  function GridFor(ct: seq<int>, bigrams: seq<real>, getIndex: (int, int, int, int) -> int, k: int): Grid
    requires k > 0
  {
    Grid(ct, bigrams, getIndex, k, |ct| / k)
  }

  /**
   * Trial `i` is the greedy key for key length and start column
   * `sched[i]`, scored by the decryption it gives.
   */
  ghost predicate Tried(ct: seq<int>, bigrams: seq<real>, getIndex: (int, int, int, int) -> int,
                        score: seq<int> -> real, decryptIndexes: (nat, seq<int>) --> seq<int>,
                        keys: seq<seq<int>>, scores: seq<real>, sched: seq<(int, int)>)
    requires IndexMaker(decryptIndexes)
  {
    |keys| == |scores| == |sched|
    && forall i :: 0 <= i < |sched| ==>
      sched[i].0 > 0 && Greedy(GridFor(ct, bigrams, getIndex, sched[i].0), keys[i], sched[i].1)
      && scores[i] == score(Gathered(ct, decryptIndexes(|ct|, keys[i])))
  }

  lemma TriedSnoc(ct: seq<int>, bigrams: seq<real>, getIndex: (int, int, int, int) -> int,
                  score: seq<int> -> real, decryptIndexes: (nat, seq<int>) --> seq<int>,
                  keys: seq<seq<int>>, scores: seq<real>, sched: seq<(int, int)>, key: seq<int>, s: real, k: int, start: int)
    requires IndexMaker(decryptIndexes) && Tried(ct, bigrams, getIndex, score, decryptIndexes, keys, scores, sched)
    requires k > 0 && Greedy(GridFor(ct, bigrams, getIndex, k), key, start)
    requires s == score(Gathered(ct, decryptIndexes(|ct|, key)))
    ensures Tried(ct, bigrams, getIndex, score, decryptIndexes, keys + [key], scores + [s], sched + [(k, start)])
  {
    var ks, ss, sch := keys + [key], scores + [s], sched + [(k, start)];
    forall i | 0 <= i < |sched| ensures ks[i] == keys[i] && ss[i] == scores[i] && sch[i] == sched[i] {
    }
  }

  function MinInt(a: int, b: int): int {
    if a < b then a else b
  }

  /**
   * The running best after the trials so far: `f64::MIN` and the empty key
   * before any, then the first best trial's score and key.
   */
  predicate Running(keys: seq<seq<int>>, scores: seq<real>, best: int, bestScore: real, bestKey: seq<int>) {
    |keys| == |scores|
    && (scores == [] ==> bestScore == F64Min && bestKey == [])
    && (scores != [] ==> FirstBest(scores, best) && bestScore == scores[best] && bestKey == keys[best])
  }

  /**
   * The `for start_col in 0..key_len` loop of one key length: one greedy
   * key per start column, each scored and compared with the running best.
   */
  method TryStarts(ct: seq<int>, bigrams: seq<real>, lo: real, score: seq<int> -> real,
                   decryptIndexes: (nat, seq<int>) --> seq<int>, getIndex: (int, int, int, int) -> int, keyLen: int,
                   bestScore0: real, bestKey0: seq<int>, ghost keys0: seq<seq<int>>, ghost scores0: seq<real>,
                   ghost best0: int, ghost sched: seq<(int, int)>)
    returns (bestScore: real, bestKey: seq<int>, ghost keys: seq<seq<int>>, ghost scores: seq<real>, ghost best: int)
    requires BigramReady(ct, bigrams) && BigramsAbove(ct, bigrams, lo) && ReadsInside(getIndex)
    requires ScoreAbove(score) && IndexMaker(decryptIndexes) && 0 < keyLen
    requires Tried(ct, bigrams, getIndex, score, decryptIndexes, keys0, scores0, sched)
    requires Running(keys0, scores0, best0, bestScore0, bestKey0)
    ensures Tried(ct, bigrams, getIndex, score, decryptIndexes, keys, scores, sched + seq(keyLen, s => (keyLen, s)))
    ensures Running(keys, scores, best, bestScore, bestKey) && scores != []
  {
    var len := |ct|;
    var numRows := len / keyLen;
    RowsFit(len, keyLen);
    var grid := Grid(ct, bigrams, getIndex, keyLen, numRows);
    assert GridOk(grid);
    bestScore, bestKey, keys, scores, best := bestScore0, bestKey0, keys0, scores0, best0;
    for startCol := 0 to keyLen
      invariant Tried(ct, bigrams, getIndex, score, decryptIndexes, keys, scores, sched + seq(startCol, s => (keyLen, s)))
      invariant Running(keys, scores, best, bestScore, bestKey)
      invariant startCol > 0 ==> scores != []
    {
      var key := GreedyKey(grid, startCol, lo);
      var s := score(Gathered(ct, decryptIndexes(len, key)));
      FirstBestStep(scores, best, bestScore, s);
      TriedSnoc(ct, bigrams, getIndex, score, decryptIndexes, keys, scores,
                sched + seq(startCol, s => (keyLen, s)), key, s, keyLen, startCol);
      assert seq(startCol + 1, s => (keyLen, s)) == seq(startCol, s => (keyLen, s)) + [(keyLen, startCol)];
      if s > bestScore {
        bestScore := s;
        bestKey := key;
        best := |scores|;
      }
      keys, scores := keys + [key], scores + [s];
    }
  }

  /**
   * `transposition_solve`: for each key length in `min(3, len)..min(15, len)`
   * and each start column, build the greedy key, score the decryption it
   * gives and keep the first best key. `keys` and `scores` record every
   * trial in the order tried; with a message of at most 3 letters there is
   * no trial and the key is empty.
   */
  method TranspositionSolve(ct: seq<int>, bigrams: seq<real>, lo: real, score: seq<int> -> real,
                            decryptIndexes: (nat, seq<int>) --> seq<int>, getIndex: (int, int, int, int) -> int)
    returns (bestKey: seq<int>, ghost keys: seq<seq<int>>, ghost scores: seq<real>)
    requires BigramReady(ct, bigrams) && BigramsAbove(ct, bigrams, lo) && ReadsInside(getIndex)
    requires ScoreAbove(score) && IndexMaker(decryptIndexes)
    ensures Tried(ct, bigrams, getIndex, score, decryptIndexes, keys, scores, Schedule(MinInt(3, |ct|), MinInt(15, |ct|)))
    ensures |ct| <= 3 ==> keys == [] && bestKey == []
    ensures |ct| > 3 ==> keys != [] && exists j :: FirstBest(scores, j) && bestKey == keys[j]
  {
    var len := |ct|;
    var bestScore := F64Min;
    bestKey := [];
    keys, scores := [], [];
    ghost var best := 0;
    var lo3, hi15 := MinInt(3, len), MinInt(15, len);
    for keyLen := lo3 to hi15
      invariant Tried(ct, bigrams, getIndex, score, decryptIndexes, keys, scores, Schedule(lo3, keyLen))
      invariant Running(keys, scores, best, bestScore, bestKey)
      invariant keyLen > lo3 ==> scores != []
    {
      bestScore, bestKey, keys, scores, best :=
        TryStarts(ct, bigrams, lo, score, decryptIndexes, getIndex, keyLen, bestScore, bestKey, keys, scores, best, Schedule(lo3, keyLen));
    }
  }
}
