/**
 * The Vigenère-family solver `vig_solve` (`src/cipher/polyalph/mod.rs`):
 * for every key length up to 30 it climbs one key column at a time,
 * trying every shift `0, inc, 2 inc, ...` below 26 and keeping the one
 * the scorer likes best, until a whole sweep improves the score by less
 * than 0.1; the key of the first length with the best score wins.
 *
 * The quadgram scorer is an oracle `score`; `decryptOne` and `getShift`
 * are the two closures the caller passes.
 */
module VigSolver {
  import opened Arith

  const KeyLenMaxTest: int := 30

  /** `f64::MIN`, the starting value of every running best score. */
  const F64Min: real := -1.7976931348623157e308

  /** `f64::MAX`. */
  const F64Max: real := 1.7976931348623157e308

  /**
   * A finite `f64`, the type of the scorer's values: between `f64::MIN`
   * and `f64::MAX`, both included.
   */
  type F64 = r: real | F64Min <= r <= F64Max witness 0.0

  function AbsReal(x: real): real {
    if x < 0.0 then -x else x
  }

  function MinInt(a: int, b: int): int {
    if a < b then a else b
  }

  /** Every key entry is a shift `0, inc, 2 inc, ...` below 26. */
  predicate Shifts(key: seq<int>, inc: int)
    requires inc > 0
  {
    forall i :: 0 <= i < |key| ==> 0 <= key[i] < 26 && key[i] % inc == 0
  }

  /**
   * The strided re-decryption `for idx in (start..len).step_by(step)`:
   * each visited position gets `decryptOne` of its ciphertext code point
   * and the shift `getShift` reports for the plaintext as it stands.
   */
  function Sweep(decryptOne: (int, int) -> int, getShift: (seq<int>, int, int, seq<int>) -> int,
                 ct: seq<int>, pt: seq<int>, key: seq<int>, keyLen: int, idx: nat, step: nat): (r: seq<int>)
    requires |pt| == |ct| && step > 0
    ensures |r| == |ct|
    decreases |ct| - idx
  {
    if idx >= |ct| then pt
    else Sweep(decryptOne, getShift, ct, pt[idx := decryptOne(ct[idx], getShift(key, idx, keyLen, pt))], key, keyLen, idx + step, step)
  }

  /** A position before `idx` or off the stride keeps its plaintext code point. */
  lemma {:induction false} SweepFrame(decryptOne: (int, int) -> int, getShift: (seq<int>, int, int, seq<int>) -> int,
                                      ct: seq<int>, pt: seq<int>, key: seq<int>, keyLen: int, idx: nat, step: nat, j: int)
    requires |pt| == |ct| && step > 0 && 0 <= j < |ct| && (j < idx || (j - idx) % step != 0)
    ensures Sweep(decryptOne, getShift, ct, pt, key, keyLen, idx, step)[j] == pt[j]
    decreases |ct| - idx
  {
    if idx < |ct| {
      var pt' := pt[idx := decryptOne(ct[idx], getShift(key, idx, keyLen, pt))];
      if j >= idx + step {
        ModAddMultiple(j - (idx + step), 1, step);
      }
      SweepFrame(decryptOne, getShift, ct, pt', key, keyLen, idx + step, step, j);
    }
  }

  /** `getShift` ignores the plaintext, as the shift of the classic Vigenère does. */
  ghost predicate PlaintextBlind(getShift: (seq<int>, int, int, seq<int>) -> int) {
    forall key, idx, keyLen, p, q :: getShift(key, idx, keyLen, p) == getShift(key, idx, keyLen, q)
  }

  /** With a plaintext-blind shift, every position on the stride holds its own decryption. */
  lemma {:induction false} SweepBlind(decryptOne: (int, int) -> int, getShift: (seq<int>, int, int, seq<int>) -> int,
                                      ct: seq<int>, pt: seq<int>, key: seq<int>, keyLen: int, idx: nat, step: nat, j: int)
    requires |pt| == |ct| && step > 0 && PlaintextBlind(getShift)
    requires idx <= j < |ct| && (j - idx) % step == 0
    ensures Sweep(decryptOne, getShift, ct, pt, key, keyLen, idx, step)[j] == decryptOne(ct[j], getShift(key, j, keyLen, pt))
    decreases |ct| - idx
  {
    var pt' := pt[idx := decryptOne(ct[idx], getShift(key, idx, keyLen, pt))];
    if j == idx {
      SweepFrame(decryptOne, getShift, ct, pt', key, keyLen, idx + step, step, j);
    } else {
      var q := (j - idx) / step;
      assert j - idx == step * q;
      assert q >= 1;
      ModAddMultiple(j - (idx + step), 1, step);
      SweepBlind(decryptOne, getShift, ct, pt', key, keyLen, idx + step, step, j);
      assert getShift(key, j, keyLen, pt') == getShift(key, j, keyLen, pt);
    }
  }

  /** The running score before sweep `i`: `f64::MIN` before the first one. */
  function Prior(sweeps: seq<real>, i: int): real
    requires 0 <= i < |sweeps|
  {
    if i == 0 then F64Min else sweeps[i - 1]
  }

  /**
   * The scores after each sweep of one key length: they never decrease,
   * every sweep but the last gains at least 0.1, and the last gains less.
   */
  predicate Climb(sweeps: seq<real>) {
    |sweeps| > 0
    && (forall i {:trigger Prior(sweeps, i)} :: 0 <= i < |sweeps| ==> Prior(sweeps, i) <= sweeps[i])
    && (forall i {:trigger Prior(sweeps, i)} :: 0 <= i < |sweeps| - 1 ==> sweeps[i] - Prior(sweeps, i) >= 0.1)
    && sweeps[|sweeps| - 1] - Prior(sweeps, |sweeps| - 1) < 0.1
  }

  /** Every sweep so far gained at least 0.1. */
  predicate Rising(sweeps: seq<real>) {
    forall i {:trigger Prior(sweeps, i)} :: 0 <= i < |sweeps| ==> Prior(sweeps, i) <= sweeps[i] && sweeps[i] - Prior(sweeps, i) >= 0.1
  }

  /** A sweep that gains at least 0.1 keeps the climb going; one that gains less ends it. */
  lemma RisingSnoc(sweeps: seq<real>, x: real)
    requires Rising(sweeps) && (if |sweeps| == 0 then F64Min else sweeps[|sweeps| - 1]) <= x
    ensures x - (if |sweeps| == 0 then F64Min else sweeps[|sweeps| - 1]) >= 0.1 ==> Rising(sweeps + [x])
    ensures x - (if |sweeps| == 0 then F64Min else sweeps[|sweeps| - 1]) < 0.1 ==> Climb(sweeps + [x])
  {
    var ss := sweeps + [x];
    var last := if |sweeps| == 0 then F64Min else sweeps[|sweeps| - 1];
    assert ss[|sweeps|] == x && Prior(ss, |sweeps|) == last;
    forall i | 0 <= i < |sweeps|
      ensures ss[i] == sweeps[i] && Prior(ss, i) == Prior(sweeps, i)
    {
    }
    if x - last < 0.1 {
      assert forall i :: 0 <= i < |ss| - 1 ==> ss[i] - Prior(ss, i) >= 0.1;
      assert forall i :: 0 <= i < |ss| ==> Prior(ss, i) <= ss[i];
    }
  }

  /* ------------------------------------------------------------------ */
  /*             the search, as functions of its fixed inputs            */
  /* ------------------------------------------------------------------ */

  /** The inputs `vig_solve` never changes: ciphertext, shift step, scorer and the two closures. */
  datatype Env = Env(ct: seq<int>, inc: int, score: seq<int> -> F64,
                     decryptOne: (int, int) -> int, getShift: (seq<int>, int, int, seq<int>) -> int)

  /** What the loops change: the plaintext buffer, the key and the running score `curr_score`. */
  datatype St = St(pt: seq<int>, key: seq<int>, score: real)

  /** The incremental decrypt of column `col` under `key`: the stride `(col..len).step_by(key_len)`. */
  function Redecrypted(e: Env, pt: seq<int>, key: seq<int>, col: nat): (r: seq<int>)
    requires |pt| == |e.ct| && |key| > 0
    ensures |r| == |e.ct|
  {
    Sweep(e.decryptOne, e.getShift, e.ct, pt, key, |key|, col, |key|)
  }

  /** The shifts `(shift..26).step_by(inc)` the shift loop still tries. */
  function ShiftsFrom(inc: int, shift: int): (r: seq<int>)
    requires inc > 0 && shift >= 0
    ensures forall t :: 0 <= t < |r| ==> shift <= r[t] < 26 && (r[t] - shift) % inc == 0
    decreases 26 - shift
  {
    if shift >= 26 then []
    else
      var rest := ShiftsFrom(inc, shift + inc);
      ShiftsCons(inc, shift, rest);
      [shift] + rest
  }

  /** Shift `shift` before the shifts from `shift + inc` on gives the shifts from `shift` on. */
  lemma ShiftsCons(inc: int, shift: int, rest: seq<int>)
    requires inc > 0 && 0 <= shift < 26
    requires forall t :: 0 <= t < |rest| ==> shift + inc <= rest[t] < 26 && (rest[t] - (shift + inc)) % inc == 0
    ensures forall t :: 0 <= t < |[shift] + rest| ==> shift <= ([shift] + rest)[t] < 26 && (([shift] + rest)[t] - shift) % inc == 0
  {
    var r := [shift] + rest;
    forall t | 0 <= t < |r| ensures shift <= r[t] < 26 && (r[t] - shift) % inc == 0 {
      if t == 0 {
        assert r[t] == shift;
      } else {
        assert r[t] == rest[t - 1];
        ShiftStep(inc, shift, rest[t - 1]);
      }
    }
  }

  /** A shift from `shift + inc` on is also a shift from `shift` on. */
  lemma ShiftStep(inc: int, shift: int, x: int)
    requires inc > 0 && shift + inc <= x < 26 && (x - (shift + inc)) % inc == 0
    ensures shift <= x < 26 && (x - shift) % inc == 0
  {
    ModAddMultiple(x - shift - inc, 1, inc);
  }

  /**
   * The plaintexts the shift loop of column `col` scores from `shift` on:
   * each is the previous one with the column re-decrypted under
   * `key[col := shift]`.
   */
  function TriesFrom(e: Env, pt: seq<int>, key: seq<int>, col: nat, shift: int): (r: seq<seq<int>>)
    requires e.inc > 0 && |pt| == |e.ct| && col < |key| && shift >= 0
    ensures |r| == |ShiftsFrom(e.inc, shift)|
    decreases 26 - shift
  {
    if shift >= 26 then []
    else
      var p := Redecrypted(e, pt, key[col := shift], col);
      [p] + TriesFrom(e, p, key, col, shift + e.inc)
  }

  /** The plaintext the shift loop leaves: the last one it scored, or `pt` if it tries none. */
  function LastTry(e: Env, pt: seq<int>, key: seq<int>, col: nat, shift: int): (r: seq<int>)
    requires e.inc > 0 && |pt| == |e.ct| && col < |key| && shift >= 0
    ensures |r| == |e.ct|
    decreases 26 - shift
  {
    if shift >= 26 then pt
    else LastTry(e, Redecrypted(e, pt, key[col := shift], col), key, col, shift + e.inc)
  }

  /**
   * The running best of the shift loop: a plaintext scoring strictly more
   * than `curr` replaces the running score and its shift becomes `best`.
   */
  function RunBest(score: seq<int> -> F64, ps: seq<seq<int>>, shifts: seq<int>, curr: real, best: int): (real, int)
    requires |ps| == |shifts|
  {
    if ps == [] then (curr, best)
    else
      var s := score(ps[0]);
      RunBest(score, ps[1..], shifts[1..], if s > curr then s else curr, if s > curr then shifts[0] else best)
  }

  /**
   * The running best is the largest of `curr` and the scores, and its shift
   * is that of the first plaintext reaching it, or `best` when none beats `curr`.
   */
  lemma {:induction false} RunBestProps(score: seq<int> -> F64, ps: seq<seq<int>>, shifts: seq<int>, curr: real, best: int)
    requires |ps| == |shifts|
    ensures curr <= RunBest(score, ps, shifts, curr, best).0
    ensures forall t :: 0 <= t < |ps| ==> score(ps[t]) <= RunBest(score, ps, shifts, curr, best).0
    ensures || RunBest(score, ps, shifts, curr, best) == (curr, best)
            || exists t :: FirstBest(score, ps, curr, t) && RunBest(score, ps, shifts, curr, best) == (score(ps[t]), shifts[t])
  {
    if ps != [] {
      var s := score(ps[0]);
      var c := if s > curr then s else curr;
      var b := if s > curr then shifts[0] else best;
      var r := RunBest(score, ps[1..], shifts[1..], c, b);
      RunBestProps(score, ps[1..], shifts[1..], c, b);
      assert RunBest(score, ps, shifts, curr, best) == r;
      forall t | 0 <= t < |ps| ensures score(ps[t]) <= r.0 {
        if t > 0 { assert ps[t] == ps[1..][t - 1]; }
      }
      if r != (c, b) {
        var t :| FirstBest(score, ps[1..], c, t) && r == (score(ps[1..][t]), shifts[1..][t]);
        FirstBestCons(score, ps, curr, c, t);
      } else if s > curr {
        assert FirstBest(score, ps, curr, 0);
      }
    }
  }

  /** Plaintext `t` scores strictly above `curr`, and no earlier one reaches its score. */
  predicate FirstBest(score: seq<int> -> F64, ps: seq<seq<int>>, curr: real, t: int) {
    0 <= t < |ps| && curr < score(ps[t]) && forall u :: 0 <= u < t ==> score(ps[u]) < score(ps[t])
  }

  lemma FirstBestCons(score: seq<int> -> F64, ps: seq<seq<int>>, curr: real, c: real, t: int)
    requires ps != [] && FirstBest(score, ps[1..], c, t)
    requires c == (if score(ps[0]) > curr then score(ps[0]) else curr)
    ensures FirstBest(score, ps, curr, t + 1)
  {
    forall u | 0 <= u < t + 1 ensures score(ps[u]) < score(ps[t + 1]) {
      if u > 0 { assert ps[u] == ps[1..][u - 1]; }
    }
    assert ps[t + 1] == ps[1..][t];
  }

  /**
   * One column of a sweep (the loop body over `col`): try every shift,
   * keep the best as `RunBest` picks it, and re-decrypt the column with it.
   */
  function Column(e: Env, st: St, col: nat): (r: St)
    requires e.inc > 0 && |st.pt| == |e.ct| && col < |st.key|
    ensures |r.pt| == |e.ct| && |r.key| == |st.key|
    ensures forall i :: 0 <= i < |st.key| && i != col ==> r.key[i] == st.key[i]
  {
    var tries := TriesFrom(e, st.pt, st.key, col, 0);
    var best := RunBest(e.score, tries, ShiftsFrom(e.inc, 0), st.score, st.key[col]);
    var key := st.key[col := best.1];
    St(Redecrypted(e, LastTry(e, st.pt, st.key, col, 0), key, col), key, best.0)
  }

  /**
   * A column ends with the best of the running score and every score its
   * shifts gave; the shift kept is the first tried to reach that score, or
   * the old one when no shift beats the running score.
   */
  lemma ColumnBest(e: Env, st: St, col: nat)
    requires e.inc > 0 && |st.pt| == |e.ct| && col < |st.key|
    ensures st.score <= Column(e, st, col).score
    ensures forall t :: 0 <= t < |TriesFrom(e, st.pt, st.key, col, 0)| ==>
      e.score(TriesFrom(e, st.pt, st.key, col, 0)[t]) <= Column(e, st, col).score
    ensures || (Column(e, st, col).score == st.score && Column(e, st, col).key == st.key)
            || exists t :: FirstBest(e.score, TriesFrom(e, st.pt, st.key, col, 0), st.score, t)
                 && Column(e, st, col).score == e.score(TriesFrom(e, st.pt, st.key, col, 0)[t])
                 && Column(e, st, col).key == st.key[col := ShiftsFrom(e.inc, 0)[t]]
  {
    var tries := TriesFrom(e, st.pt, st.key, col, 0);
    RunBestProps(e.score, tries, ShiftsFrom(e.inc, 0), st.score, st.key[col]);
    assert st.key[col := st.key[col]] == st.key;
  }

  /** The columns `col..key_len` of one sweep, one after the other. */
  function Pass(e: Env, st: St, col: nat): (r: St)
    requires e.inc > 0 && |st.pt| == |e.ct| && col <= |st.key|
    ensures |r.pt| == |e.ct| && |r.key| == |st.key|
    decreases |st.key| - col
  {
    if col == |st.key| then st else Pass(e, Column(e, st, col), col + 1)
  }

  /** `vec![0; n]`. */
  function Zeros(n: nat): (r: seq<int>)
    ensures |r| == n && forall i :: 0 <= i < n ==> r[i] == 0
  {
    seq(n, _ => 0)
  }

  /** The state after the initial decrypt under the all-zero key of length `keyLen`. */
  function Start(e: Env, pt: seq<int>, keyLen: nat): (r: St)
    requires |pt| == |e.ct|
    ensures |r.pt| == |e.ct| && |r.key| == keyLen
  {
    var key := Zeros(keyLen);
    St(Sweep(e.decryptOne, e.getShift, e.ct, pt, key, keyLen, 0, 1), key, F64Min)
  }

  /** Each state of the path is the whole sweep `Pass` of the one before. */
  predicate Path(e: Env, path: seq<St>)
    requires e.inc > 0
  {
    && (forall i :: 0 <= i < |path| ==> |path[i].pt| == |e.ct|)
    && (forall i :: 0 <= i < |path| - 1 ==> path[i + 1] == Pass(e, path[i], 0))
  }

  /** `sweeps` lists the running score after each sweep of the path. */
  predicate SweepScores(path: seq<St>, sweeps: seq<real>) {
    |sweeps| == |path| - 1 && forall i :: 0 <= i < |sweeps| ==> sweeps[i] == path[i + 1].score
  }

  lemma PathSnoc(e: Env, path: seq<St>, sweeps: seq<real>, next: St)
    requires e.inc > 0 && path != [] && Path(e, path) && SweepScores(path, sweeps)
    requires next == Pass(e, path[|path| - 1], 0)
    ensures Path(e, path + [next]) && SweepScores(path + [next], sweeps + [next.score])
  {
    var p := path + [next];
    assert forall i :: 0 <= i < |path| ==> p[i] == path[i];
  }

  lemma {:induction false} PathsAgree(e: Env, p: seq<St>, q: seq<St>, k: nat)
    requires e.inc > 0 && Path(e, p) && Path(e, q) && p != [] && q != [] && p[0] == q[0]
    requires k < |p| && k < |q|
    ensures p[k] == q[k]
  {
    if k > 0 {
      PathsAgree(e, p, q, k - 1);
      assert p[k] == Pass(e, p[k - 1], 0);
      assert q[k] == Pass(e, q[k - 1], 0);
    }
  }

  /** A shorter climb's last sweep is also a sweep of the longer one, where it gains at least 0.1. */
  lemma ShorterNotClimb(e: Env, p: seq<St>, q: seq<St>, ps: seq<real>, qs: seq<real>)
    requires e.inc > 0 && Path(e, p) && Path(e, q) && SweepScores(p, ps) && SweepScores(q, qs)
    requires Climb(ps) && p[0] == q[0] && |p| < |q|
    ensures !Climb(qs)
  {
    var m := |ps| - 1;
    PathsAgree(e, p, q, m + 1);
    if m > 0 {
      PathsAgree(e, p, q, m);
    }
    assert ps[m] == qs[m] && Prior(ps, m) == Prior(qs, m);
  }

  /**
   * A climb is determined by where it starts: two paths from one state
   * whose scores both climb until a sweep gains less than 0.1 are equal.
   */
  lemma PathUnique(e: Env, p: seq<St>, q: seq<St>, ps: seq<real>, qs: seq<real>)
    requires e.inc > 0 && Path(e, p) && Path(e, q) && SweepScores(p, ps) && SweepScores(q, qs)
    requires Climb(ps) && Climb(qs) && p[0] == q[0]
    ensures p == q
  {
    if |p| < |q| {
      ShorterNotClimb(e, p, q, ps, qs);
    } else if |q| < |p| {
      ShorterNotClimb(e, q, p, qs, ps);
    } else {
      forall k | 0 <= k < |p| ensures p[k] == q[k] {
        PathsAgree(e, p, q, k);
      }
    }
  }

  /**
   * The outcome of one key length: its key, the score after each sweep and
   * the states the climb went through.
   */
  datatype Trial = Trial(key: seq<int>, sweeps: seq<real>, path: seq<St>)

  /** The score a key length ends with (`f64::MIN` before any sweep). */
  function FinalScore(t: Trial): real {
    if t.sweeps == [] then F64Min else t.sweeps[|t.sweeps| - 1]
  }

  /** Trial `i` tried key length `i + 1`, its key entries are shifts and its scores climb. */
  predicate TrialsShaped(trials: seq<Trial>, inc: int)
    requires inc > 0
  {
    forall i :: 0 <= i < |trials| ==> |trials[i].key| == i + 1 && Shifts(trials[i].key, inc) && Climb(trials[i].sweeps)
  }

  lemma TrialsShapedSnoc(trials: seq<Trial>, inc: int, t: Trial)
    requires inc > 0 && TrialsShaped(trials, inc)
    requires |t.key| == |trials| + 1 && Shifts(t.key, inc) && Climb(t.sweeps)
    ensures TrialsShaped(trials + [t], inc)
  {
    var ts := trials + [t];
    assert forall i :: 0 <= i < |trials| ==> ts[i] == trials[i];
  }

  /** Trial `j` scores best, and every earlier trial scores strictly less. */
  predicate FirstMax(trials: seq<Trial>, j: int) {
    0 <= j < |trials|
    && (forall i :: 0 <= i < |trials| ==> FinalScore(trials[i]) <= FinalScore(trials[j]))
    && (forall i :: 0 <= i < j ==> FinalScore(trials[i]) < FinalScore(trials[j]))
  }

  /**
   * Appending a trial keeps the first best unless the new trial scores
   * strictly higher, in which case it becomes the first best.
   */
  lemma FirstMaxSnoc(trials: seq<Trial>, j: int, t: Trial)
    requires FirstMax(trials, j)
    ensures FinalScore(t) > FinalScore(trials[j]) ==> FirstMax(trials + [t], |trials|)
    ensures FinalScore(t) <= FinalScore(trials[j]) ==> FirstMax(trials + [t], j)
  {
    var ts := trials + [t];
    assert forall i :: 0 <= i < |trials| ==> ts[i] == trials[i];
  }

  /**
   * The running best of the key-length loop: `f64::MIN` and the empty key
   * before any trial; after that, trial `best` is the first best, its score
   * is the running one, and its key is kept unless that score is `f64::MIN`,
   * which no strict `>` against the start beats.
   */
  predicate KeptTrial(trials: seq<Trial>, best: int, bestScore: real, bestKey: seq<int>) {
    && F64Min <= bestScore
    && (trials == [] ==> best == 0 && bestKey == [] && bestScore == F64Min)
    && (trials != [] ==> FirstMax(trials, best) && bestScore == FinalScore(trials[best])
                         && bestKey == if bestScore > F64Min then trials[best].key else [])
  }

  /** A trial scoring strictly above the running best becomes the kept one; any other leaves it. */
  lemma KeptTrialSnoc(trials: seq<Trial>, best: int, bestScore: real, bestKey: seq<int>, t: Trial)
    requires KeptTrial(trials, best, bestScore, bestKey) && F64Min <= FinalScore(t)
    ensures FinalScore(t) > bestScore ==> KeptTrial(trials + [t], |trials|, FinalScore(t), t.key)
    ensures FinalScore(t) <= bestScore ==> KeptTrial(trials + [t], best, bestScore, bestKey)
  {
    var ts := trials + [t];
    if trials != [] {
      FirstMaxSnoc(trials, best, t);
      assert ts[best] == trials[best];
    } else {
      assert FirstMax(ts, 0);
    }
  }

  /** The kept key is empty or the key of the first best trial, whose entries are shifts. */
  lemma KeptTrialKey(trials: seq<Trial>, best: int, bestScore: real, bestKey: seq<int>, inc: int)
    requires inc > 0 && KeptTrial(trials, best, bestScore, bestKey) && TrialsShaped(trials, inc)
    ensures |bestKey| <= |trials| && Shifts(bestKey, inc)
    ensures trials == [] ==> bestKey == []
    ensures trials != [] ==> FirstMax(trials, best) && bestKey == if FinalScore(trials[best]) > F64Min then trials[best].key else []
  {
  }

  /** The loops `for idx in (start..len).step_by(step)` that re-decrypt the plaintext buffer. */
  method Redecrypt(plaintext: array<int>, decryptOne: (int, int) -> int, getShift: (seq<int>, int, int, seq<int>) -> int,
                   ct: seq<int>, key: seq<int>, keyLen: int, start: nat, step: nat)
    requires plaintext.Length == |ct| && step > 0
    modifies plaintext
    ensures plaintext[..] == Sweep(decryptOne, getShift, ct, old(plaintext[..]), key, keyLen, start, step)
  {
    var idx := start;
    while idx < |ct|
      invariant Sweep(decryptOne, getShift, ct, plaintext[..], key, keyLen, idx, step)
             == Sweep(decryptOne, getShift, ct, old(plaintext[..]), key, keyLen, start, step)
      decreases |ct| - idx
    {
      ghost var before := plaintext[..];
      plaintext[idx] := decryptOne(ct[idx], getShift(key, idx, keyLen, plaintext[..]));
      assert plaintext[..] == before[idx := decryptOne(ct[idx], getShift(key, idx, keyLen, before))];
      idx := idx + step;
    }
  }


  /* ------------------------------------------------------------------ */
  /*               shifts that read one key entry and no text            */
  /* ------------------------------------------------------------------ */

  /**
   * `get_shift` ignores the plaintext, and for position `idx` reads only
   * key entry `idx mod key_len`, as the classic Vigenère shift does.
   */
  ghost predicate ColumnLocal(getShift: (seq<int>, int, int, seq<int>) -> int) {
    && PlaintextBlind(getShift)
    && forall key: seq<int>, key': seq<int>, idx: int, p: seq<int>
         {:trigger SameColumn(key, key', idx), getShift(key, idx, |key|, p)} ::
         SameColumn(key, key', idx) ==> getShift(key, idx, |key|, p) == getShift(key', idx, |key|, p)
  }

  /** Keys `key` and `key'` have one length and agree at entry `idx mod |key|`. */
  predicate SameColumn(key: seq<int>, key': seq<int>, idx: int) {
    |key'| == |key| > 0 && 0 <= idx && key[idx % |key|] == key'[idx % |key|]
  }

  /** The whole ciphertext decrypted under `key`, position by position. */
  function Decryption(e: Env, key: seq<int>): (r: seq<int>)
    ensures |r| == |e.ct|
  {
    seq(|e.ct|, j requires 0 <= j < |e.ct| => e.decryptOne(e.ct[j], e.getShift(key, j, |key|, [])))
  }

  /** Position `j` lies on the stride `(col..).step_by(k)` exactly when it is `col` mod `k`. */
  lemma StrideMod(j: int, col: int, k: int)
    requires 0 <= col < k && 0 <= j
    ensures (j >= col && (j - col) % k == 0) <==> j % k == col
  {
    if j % k == col {
      var q := j / k;
      assert j == k * q + col;
      assert q >= 0;
      DivModUnique(j - col, k, q, 0);
    }
    if j >= col && (j - col) % k == 0 {
      var q := (j - col) / k;
      assert j - col == k * q;
      DivModUnique(j, k, q, col);
    }
  }

  /** Keys that agree at entry `j mod k` decrypt position `j` alike. */
  lemma DecryptionLocal(e: Env, key: seq<int>, key': seq<int>, j: int)
    requires ColumnLocal(e.getShift) && |key'| == |key| > 0 && 0 <= j < |e.ct| && key[j % |key|] == key'[j % |key|]
    ensures Decryption(e, key)[j] == Decryption(e, key')[j]
  {
    assert SameColumn(key, key', j);
  }

  /** The buffer agrees with the decryption under `key` everywhere off column `col`. */
  predicate OffColumn(e: Env, pt: seq<int>, key: seq<int>, col: nat)
    requires |pt| == |e.ct| && col < |key|
  {
    forall j :: 0 <= j < |e.ct| && j % |key| != col ==> pt[j] == Decryption(e, key)[j]
  }

  /** Re-decrypting column `col` under `key[col := s]` completes the decryption under that key. */
  lemma RedecryptedColumn(e: Env, pt: seq<int>, key: seq<int>, col: nat, s: int)
    requires ColumnLocal(e.getShift) && |pt| == |e.ct| && col < |key| && OffColumn(e, pt, key, col)
    ensures Redecrypted(e, pt, key[col := s], col) == Decryption(e, key[col := s])
    ensures OffColumn(e, Decryption(e, key[col := s]), key, col)
  {
    var k := key[col := s];
    var r := Redecrypted(e, pt, k, col);
    forall j | 0 <= j < |e.ct| ensures r[j] == Decryption(e, k)[j] && (j % |key| != col ==> Decryption(e, k)[j] == Decryption(e, key)[j]) {
      StrideMod(j, col, |key|);
      if j % |key| == col {
        SweepBlind(e.decryptOne, e.getShift, e.ct, pt, k, |k|, col, |k|, j);
        assert e.getShift(k, j, |k|, pt) == e.getShift(k, j, |k|, []);
      } else {
        SweepFrame(e.decryptOne, e.getShift, e.ct, pt, k, |k|, col, |k|, j);
        DecryptionLocal(e, key, k, j);
      }
    }
  }

  /** Every plaintext the shift loop scores is the decryption under the key with that shift. */
  lemma {:induction false} TriesDecrypt(e: Env, pt: seq<int>, key: seq<int>, col: nat, shift: int)
    requires e.inc > 0 && ColumnLocal(e.getShift) && |pt| == |e.ct| && col < |key| && shift >= 0
    requires OffColumn(e, pt, key, col)
    ensures forall t :: 0 <= t < |TriesFrom(e, pt, key, col, shift)| ==>
      TriesFrom(e, pt, key, col, shift)[t] == Decryption(e, key[col := ShiftsFrom(e.inc, shift)[t]])
    ensures OffColumn(e, LastTry(e, pt, key, col, shift), key, col)
    decreases 26 - shift
  {
    if shift < 26 {
      RedecryptedColumn(e, pt, key, col, shift);
      var p := Redecrypted(e, pt, key[col := shift], col);
      TriesDecrypt(e, p, key, col, shift + e.inc);
      var ts := TriesFrom(e, pt, key, col, shift);
      var ss := ShiftsFrom(e.inc, shift);
      assert ts == [p] + TriesFrom(e, p, key, col, shift + e.inc);
      assert ss == [shift] + ShiftsFrom(e.inc, shift + e.inc);
      forall t | 0 < t < |ts| ensures ts[t] == Decryption(e, key[col := ss[t]]) {
        assert ts[t] == TriesFrom(e, p, key, col, shift + e.inc)[t - 1];
        assert ss[t] == ShiftsFrom(e.inc, shift + e.inc)[t - 1];
      }
    }
  }

  /**
   * When the buffer is the decryption under the key and the running score
   * is its score (or `f64::MIN`), a column leaves the decryption under the
   * new key, and the running score is that decryption's score.
   */
  lemma ColumnScored(e: Env, st: St, col: nat)
    requires e.inc > 0 && ColumnLocal(e.getShift) && Shifts(st.key, e.inc)
    requires |st.pt| == |e.ct| && col < |st.key| && st.pt == Decryption(e, st.key)
    requires st.score == F64Min || st.score == e.score(st.pt)
    ensures Column(e, st, col).pt == Decryption(e, Column(e, st, col).key)
    ensures Column(e, st, col).score == e.score(Column(e, st, col).pt)
    ensures Shifts(Column(e, st, col).key, e.inc)
  {
    var tries := TriesFrom(e, st.pt, st.key, col, 0);
    var shifts := ShiftsFrom(e.inc, 0);
    var r := Column(e, st, col);
    TriesDecrypt(e, st.pt, st.key, col, 0);
    ColumnBest(e, st, col);
    var best := RunBest(e.score, tries, shifts, st.score, st.key[col]);
    RedecryptedColumn(e, LastTry(e, st.pt, st.key, col, 0), st.key, col, best.1);
    assert r.key == st.key[col := best.1];
    if r.score == st.score && r.key == st.key && st.score == F64Min {
      // No shift beat `f64::MIN`, so the kept shift, one of those tried, scores `f64::MIN` too.
      ShiftsFromHas(e.inc, 0, st.key[col]);
      var t :| 0 <= t < |shifts| && shifts[t] == st.key[col];
      assert st.key[col := shifts[t]] == st.key;
      assert e.score(tries[t]) <= r.score;
    }
  }

  /** Every shift `shift, shift + inc, ...` below 26 is one the shift loop tries. */
  lemma {:induction false} ShiftsFromHas(inc: int, shift: int, x: int)
    requires inc > 0 && 0 <= shift <= x < 26 && (x - shift) % inc == 0
    ensures x in ShiftsFrom(inc, shift)
    decreases 26 - shift
  {
    if x != shift {
      var q := (x - shift) / inc;
      assert x - shift == inc * q;
      assert q >= 1;
      ModAddMultiple(x - shift - inc, 1, inc);
      ShiftsFromHas(inc, shift + inc, x);
      assert ShiftsFrom(inc, shift) == [shift] + ShiftsFrom(inc, shift + inc);
    }
  }

  /** The columns from `col` on keep the buffer the decryption under the key, and score it. */
  lemma {:induction false} PassScored(e: Env, st: St, col: nat)
    requires e.inc > 0 && ColumnLocal(e.getShift) && Shifts(st.key, e.inc)
    requires |st.pt| == |e.ct| && col <= |st.key| && st.pt == Decryption(e, st.key)
    requires st.score == F64Min || st.score == e.score(st.pt)
    ensures Pass(e, st, col).pt == Decryption(e, Pass(e, st, col).key)
    ensures col < |st.key| ==> Pass(e, st, col).score == e.score(Pass(e, st, col).pt)
    ensures Shifts(Pass(e, st, col).key, e.inc)
    decreases |st.key| - col
  {
    if col < |st.key| {
      ColumnScored(e, st, col);
      PassScored(e, Column(e, st, col), col + 1);
    }
  }

  /** The initial decrypt is the decryption under the all-zero key. */
  lemma StartDecrypts(e: Env, pt: seq<int>, keyLen: nat)
    requires ColumnLocal(e.getShift) && |pt| == |e.ct|
    ensures Start(e, pt, keyLen).pt == Decryption(e, Zeros(keyLen))
  {
    var key := Zeros(keyLen);
    forall j | 0 <= j < |e.ct| ensures Start(e, pt, keyLen).pt[j] == Decryption(e, key)[j] {
      SweepBlind(e.decryptOne, e.getShift, e.ct, pt, key, keyLen, 0, 1, j);
      assert e.getShift(key, j, keyLen, pt) == e.getShift(key, j, |key|, []);
    }
  }

  /**
   * With a shift that reads one key entry and no text, every state of a
   * key length's climb holds the decryption under its key, and every
   * sweep's score is the scorer's value of that decryption.
   */
  lemma TrialScored(e: Env, t: Trial, pt0: seq<int>, keyLen: nat)
    requires e.inc > 0 && ColumnLocal(e.getShift) && keyLen > 0
    requires TrialRuns(e, t, pt0, keyLen)
    ensures forall i :: 0 <= i < |t.path| ==> t.path[i].pt == Decryption(e, t.path[i].key)
    ensures forall i :: 0 <= i < |t.sweeps| ==> t.sweeps[i] == e.score(Decryption(e, t.path[i + 1].key))
    ensures EndPt(t) == Decryption(e, t.key)
  {
    StartDecrypts(e, pt0, keyLen);
    var i := 0;
    while i < |t.path| - 1
      invariant 0 <= i < |t.path|
      invariant forall k :: 0 <= k <= i ==> t.path[k].pt == Decryption(e, t.path[k].key) && |t.path[k].key| == keyLen
      invariant forall k :: 0 <= k <= i ==> Shifts(t.path[k].key, e.inc)
      invariant forall k :: 0 < k <= i ==> t.path[k].score == e.score(t.path[k].pt)
    {
      PassScored(e, t.path[i], 0);
      assert t.path[i + 1] == Pass(e, t.path[i], 0);
      i := i + 1;
    }
  }

  /** The plaintext a trial leaves in the buffer (empty for a trial without states). */
  function EndPt(t: Trial): seq<int> {
    if t.path == [] then [] else t.path[|t.path| - 1].pt
  }

  /**
   * Trial `t` is what key length `keyLen` does to the buffer `pt0`: it
   * starts from the initial decrypt, each state is the sweep of the one
   * before, `sweeps` are their running scores and `key` is the last key.
   */
  predicate TrialRuns(e: Env, t: Trial, pt0: seq<int>, keyLen: nat)
    requires e.inc > 0
  {
    && |pt0| == |e.ct|
    && t.path != [] && t.path[0] == Start(e, pt0, keyLen)
    && Path(e, t.path) && SweepScores(t.path, t.sweeps)
    && t.key == t.path[|t.path| - 1].key
  }

  /** The buffer trial `j` starts from: all zeros for the first, else what trial `j - 1` left. */
  function PriorPt(e: Env, trials: seq<Trial>, j: int): seq<int>
    requires 0 <= j <= |trials|
  {
    if j == 0 then Zeros(|e.ct|) else EndPt(trials[j - 1])
  }

  /**
   * Trial `j`. `TrialsRun` quantifies over this term, so that a fact about
   * one trial, which mentions the trial before it, does not call up that one's.
   */
  function TrialAt(trials: seq<Trial>, j: int): Trial
    requires 0 <= j < |trials|
  {
    trials[j]
  }

  /** Each key length runs on the buffer the previous one left, the first on zeros. */
  predicate TrialsRun(e: Env, trials: seq<Trial>)
    requires e.inc > 0
  {
    forall j :: 0 <= j < |trials| ==>
      TrialRuns(e, TrialAt(trials, j), PriorPt(e, trials, j), j + 1)
  }

  /** Trial `j` of a run is what key length `j + 1` does to the buffer the trial before it left. */
  lemma TrialsRunAt(e: Env, trials: seq<Trial>, j: int)
    requires e.inc > 0 && TrialsRun(e, trials) && 0 <= j < |trials|
    ensures TrialRuns(e, trials[j], PriorPt(e, trials, j), j + 1)
  {
    assert TrialAt(trials, j) == trials[j];
  }

  /**
   * With a shift that reads one key entry and no text, trial `j` of a run
   * ends with the scorer's value of the decryption under its key, and that
   * decryption is the buffer it leaves.
   */
  lemma TrialsScoredAt(e: Env, trials: seq<Trial>, j: int)
    requires e.inc > 0 && ColumnLocal(e.getShift)
    requires TrialsRun(e, trials) && TrialsShaped(trials, e.inc) && 0 <= j < |trials|
    ensures FinalScore(trials[j]) == e.score(Decryption(e, trials[j].key)) && EndPt(trials[j]) == Decryption(e, trials[j].key)
  {
    var t := trials[j];
    var pt0 := PriorPt(e, trials, j);
    TrialsRunAt(e, trials, j);
    TrialScored(e, t, pt0, j + 1);
    assert t.key == t.path[|t.path| - 1].key;
  }

  /** Trial `t` is what key length `keyLen` does to `pt0`, with shifts for its key entries and climbing scores. */
  predicate ShapedRun(e: Env, t: Trial, pt0: seq<int>, keyLen: nat)
    requires e.inc > 0
  {
    TrialRuns(e, t, pt0, keyLen) && |t.key| == keyLen && Shifts(t.key, e.inc) && Climb(t.sweeps)
  }

  lemma TrialsRunSnoc(e: Env, trials: seq<Trial>, t: Trial)
    requires e.inc > 0 && TrialsRun(e, trials)
    requires TrialRuns(e, t, PriorPt(e, trials, |trials|), |trials| + 1)
    ensures TrialsRun(e, trials + [t])
  {
    var ts := trials + [t];
    forall j | 0 <= j < |ts|
      ensures TrialRuns(e, TrialAt(ts, j), PriorPt(e, ts, j), j + 1)
    {
      if j < |trials| { assert TrialAt(ts, j) == TrialAt(trials, j); }
      if 0 < j { assert ts[j - 1] == trials[j - 1]; }
    }
    assert TrialsRun(e, ts);
  }

  /**
   * One column of a sweep: try every shift in the column, keep the first
   * that raises the running score most, and re-decrypt the column with it.
   */
  method TryColumn(plaintext: array<int>, ct: seq<int>, shiftInc: int, score: seq<int> -> F64,
                   decryptOne: (int, int) -> int, getShift: (seq<int>, int, int, seq<int>) -> int,
                   key0: seq<int>, col: int, score0: real)
    returns (key: seq<int>, currScore: real)
    requires plaintext.Length == |ct| && shiftInc > 0
    requires 0 <= col < |key0| && Shifts(key0, shiftInc) && F64Min <= score0 <= F64Max
    modifies plaintext
    ensures St(plaintext[..], key, currScore)
         == Column(Env(ct, shiftInc, score, decryptOne, getShift), St(old(plaintext[..]), key0, score0), col)
    ensures Shifts(key, shiftInc)
    ensures score0 <= currScore <= F64Max
  {
    ghost var e := Env(ct, shiftInc, score, decryptOne, getShift);
    ghost var pt0 := plaintext[..];
    currScore := score0;
    var bestShift := key0[col];
    var shift := 0;
    while shift < 26
      invariant ColumnSoFar(e, pt0, key0, col, score0, plaintext[..], shift, currScore, bestShift)
      decreases 26 - shift
    {
      ghost var before := plaintext[..];
      key := key0[col := shift];
      Redecrypt(plaintext, decryptOne, getShift, ct, key, |key|, col, |key|);
      assert plaintext[..] == Redecrypted(e, before, key, col);
      var s := score(plaintext[..]);
      ColumnSoFarStep(e, pt0, key0, col, score0, before, shift, currScore, bestShift, plaintext[..]);
      if s > currScore {
        currScore := s;
        bestShift := shift;
      }
      shift := shift + shiftInc;
    }
    ghost var pt := plaintext[..];
    ColumnSoFarDone(e, pt0, key0, col, score0, pt, shift, currScore, bestShift);
    key := key0[col := bestShift];
    Redecrypt(plaintext, decryptOne, getShift, ct, key, |key|, col, |key|);
    assert plaintext[..] == Redecrypted(e, pt, key, col);
  }

  /**
   * The state of the shift loop of one column after the shifts below
   * `shift`: the running score and best shift, run over the shifts still
   * to try from the buffer `pt`, give what the whole run from `pt0` gives,
   * and the buffer ends where the whole run's does.
   */
  predicate ColumnSoFar(e: Env, pt0: seq<int>, key0: seq<int>, col: nat, score0: real,
                        pt: seq<int>, shift: int, curr: real, best: int)
    requires e.inc > 0 && |pt0| == |e.ct| && |pt| == |e.ct| && col < |key0|
  {
    && 0 <= shift && shift % e.inc == 0
    && 0 <= best < 26 && best % e.inc == 0
    && score0 <= curr <= F64Max
    && RunBest(e.score, TriesFrom(e, pt, key0, col, shift), ShiftsFrom(e.inc, shift), curr, best)
       == RunBest(e.score, TriesFrom(e, pt0, key0, col, 0), ShiftsFrom(e.inc, 0), score0, key0[col])
    && LastTry(e, pt, key0, col, shift) == LastTry(e, pt0, key0, col, 0)
  }

  /** Trying one more shift keeps the loop's state. */
  lemma ColumnSoFarStep(e: Env, pt0: seq<int>, key0: seq<int>, col: nat, score0: real,
                        pt: seq<int>, shift: int, curr: real, best: int, p: seq<int>)
    requires e.inc > 0 && |pt0| == |e.ct| && |pt| == |e.ct| && col < |key0|
    requires ColumnSoFar(e, pt0, key0, col, score0, pt, shift, curr, best) && shift < 26
    requires p == Redecrypted(e, pt, key0[col := shift], col)
    ensures ColumnSoFar(e, pt0, key0, col, score0, p, shift + e.inc,
                        if e.score(p) > curr then e.score(p) else curr, if e.score(p) > curr then shift else best)
  {
    ColumnStep(e, pt, key0, col, shift, p, curr, best);
    ModAddMultiple(shift, 1, e.inc);
  }

  /** Past the last shift, the loop's state is what `Column` keeps, and the key's entries stay shifts. */
  lemma ColumnSoFarDone(e: Env, pt0: seq<int>, key0: seq<int>, col: nat, score0: real,
                        pt: seq<int>, shift: int, curr: real, best: int)
    requires e.inc > 0 && |pt0| == |e.ct| && |pt| == |e.ct| && col < |key0| && Shifts(key0, e.inc)
    requires ColumnSoFar(e, pt0, key0, col, score0, pt, shift, curr, best) && shift >= 26
    ensures Column(e, St(pt0, key0, score0), col) == St(Redecrypted(e, pt, key0[col := best], col), key0[col := best], curr)
    ensures Shifts(key0[col := best], e.inc)
  {
  }

  /** One turn of the shift loop consumes the first tried plaintext and shift. */
  lemma ColumnStep(e: Env, pt: seq<int>, key0: seq<int>, col: nat, shift: int, p: seq<int>, curr: real, best: int)
    requires e.inc > 0 && |pt| == |e.ct| && col < |key0| && 0 <= shift < 26
    requires p == Redecrypted(e, pt, key0[col := shift], col)
    ensures RunBest(e.score, TriesFrom(e, pt, key0, col, shift), ShiftsFrom(e.inc, shift), curr, best)
         == RunBest(e.score, TriesFrom(e, p, key0, col, shift + e.inc), ShiftsFrom(e.inc, shift + e.inc),
                    if e.score(p) > curr then e.score(p) else curr, if e.score(p) > curr then shift else best)
    ensures LastTry(e, pt, key0, col, shift) == LastTry(e, p, key0, col, shift + e.inc)
  {
    var ps := TriesFrom(e, pt, key0, col, shift);
    var ss := ShiftsFrom(e.inc, shift);
    assert ps == [p] + TriesFrom(e, p, key0, col, shift + e.inc);
    assert ss == [shift] + ShiftsFrom(e.inc, shift + e.inc);
    assert ps[1..] == TriesFrom(e, p, key0, col, shift + e.inc);
    assert ss[1..] == ShiftsFrom(e.inc, shift + e.inc);
  }

  /**
   * The state of one key length's climb before a sweep: a path of whole
   * sweeps from the initial decrypt to `st`, every sweep so far gaining at
   * least 0.1, and `st`'s score the last sweep's (`f64::MIN` before any).
   */
  predicate Climbing(e: Env, pt0: seq<int>, keyLen: nat, sweeps: seq<real>, path: seq<St>, st: St)
    requires e.inc > 0
  {
    && |pt0| == |e.ct|
    && |st.key| == keyLen && Shifts(st.key, e.inc) && F64Min <= st.score <= F64Max
    && st.score == (if |sweeps| == 0 then F64Min else sweeps[|sweeps| - 1])
    && Rising(sweeps)
    && path != [] && path[0] == Start(e, pt0, keyLen) && Path(e, path) && SweepScores(path, sweeps)
    && path[|path| - 1] == st
  }

  /**
   * A sweep that gains at least 0.1 continues the climb; one that gains
   * less ends it, with the path a trial run whose scores climb.
   */
  lemma ClimbingSnoc(e: Env, pt0: seq<int>, keyLen: nat, sweeps: seq<real>, path: seq<St>, st: St, next: St)
    requires e.inc > 0 && Climbing(e, pt0, keyLen, sweeps, path, st)
    requires next == Pass(e, st, 0) && |next.key| == keyLen && Shifts(next.key, e.inc)
    requires st.score <= next.score <= F64Max
    ensures next.score - st.score >= 0.1 ==> Climbing(e, pt0, keyLen, sweeps + [next.score], path + [next], next)
    ensures next.score - st.score < 0.1 ==>
              && TrialRuns(e, Trial(next.key, sweeps + [next.score], path + [next]), pt0, keyLen)
              && Climb(sweeps + [next.score])
  {
    PathSnoc(e, path, sweeps, next);
    RisingSnoc(sweeps, next.score);
    var p := path + [next];
    assert p[0] == path[0] && p[|p| - 1] == next;
  }

  /**
   * One key length: decrypt under the all-zero key, then sweep the
   * columns until a sweep gains less than 0.1. `path` is the state after
   * the initial decrypt and after each sweep, `sweeps` their running scores.
   */
  method ClimbKeyLen(plaintext: array<int>, ct: seq<int>, shiftInc: int, score: seq<int> -> F64,
                     decryptOne: (int, int) -> int, getShift: (seq<int>, int, int, seq<int>) -> int, keyLen: int)
    returns (key: seq<int>, currScore: real, ghost sweeps: seq<real>, ghost path: seq<St>)
    requires plaintext.Length == |ct| && shiftInc > 0 && keyLen > 0
    modifies plaintext
    ensures TrialRuns(Env(ct, shiftInc, score, decryptOne, getShift), Trial(key, sweeps, path), old(plaintext[..]), keyLen)
    ensures path[|path| - 1] == St(plaintext[..], key, currScore)
    ensures |key| == keyLen && Shifts(key, shiftInc) && Climb(sweeps)
    ensures currScore == sweeps[|sweeps| - 1] && F64Min <= currScore
  {
    ghost var e := Env(ct, shiftInc, score, decryptOne, getShift);
    ghost var pt0 := plaintext[..];
    key := Zeros(keyLen);
    var prevScore;
    currScore := F64Min;
    Redecrypt(plaintext, decryptOne, getShift, ct, key, keyLen, 0, 1);
    sweeps := [];
    path := [St(plaintext[..], key, currScore)];
    assert path[0] == Start(e, pt0, keyLen);
    while true
      invariant Climbing(e, pt0, keyLen, sweeps, path, St(plaintext[..], key, currScore))
      decreases (F64Max - currScore) * 10.0
    {
      prevScore := currScore;
      ghost var from := St(plaintext[..], key, currScore);
      for col := 0 to keyLen
        invariant |key| == keyLen && Shifts(key, shiftInc)
        invariant prevScore <= currScore <= F64Max
        invariant Pass(e, St(plaintext[..], key, currScore), col) == Pass(e, from, 0)
      {
        key, currScore := TryColumn(plaintext, ct, shiftInc, score, decryptOne, getShift, key, col, currScore);
      }
      ClimbingSnoc(e, pt0, keyLen, sweeps, path, from, St(plaintext[..], key, currScore));
      sweeps := sweeps + [currScore];
      path := path + [St(plaintext[..], key, currScore)];
      if AbsReal(prevScore - currScore) < 0.1 {
        break;
      }
    }
  }

  /**
   * The state of `vig_solve` between key lengths: the trials so far each
   * ran on the buffer the one before left, `pt` is the buffer the last one
   * left, and the running best is kept as the source keeps it.
   */
  predicate Solving(e: Env, trials: seq<Trial>, pt: seq<int>, best: int, bestScore: real, bestKey: seq<int>)
    requires e.inc > 0
  {
    && TrialsShaped(trials, e.inc) && TrialsRun(e, trials)
    && pt == PriorPt(e, trials, |trials|)
    && KeptTrial(trials, best, bestScore, bestKey)
  }

  /** One more key length, run on the buffer the last one left, extends the solver's state. */
  lemma SolvingSnoc(e: Env, trials: seq<Trial>, pt: seq<int>, best: int, bestScore: real, bestKey: seq<int>, t: Trial)
    requires e.inc > 0 && Solving(e, trials, pt, best, bestScore, bestKey)
    requires TrialRuns(e, t, pt, |trials| + 1) && |t.key| == |trials| + 1 && Shifts(t.key, e.inc) && Climb(t.sweeps)
    requires F64Min <= FinalScore(t)
    ensures FinalScore(t) > bestScore ==> Solving(e, trials + [t], EndPt(t), |trials|, FinalScore(t), t.key)
    ensures FinalScore(t) <= bestScore ==> Solving(e, trials + [t], EndPt(t), best, bestScore, bestKey)
  {
    KeptTrialSnoc(trials, best, bestScore, bestKey, t);
    TrialsShapedSnoc(trials, e.inc, t);
    TrialsRunSnoc(e, trials, t);
    assert PriorPt(e, trials + [t], |trials| + 1) == EndPt(t);
  }

  /**
   * `vig_solve`, with `trials` recording what each key length did: its
   * key, sweep scores and states, each run on the buffer the previous
   * one left. The returned key is that of the first best trial; its length
   * is at most 30 and the message length, and each entry is a shift. The
   * running best starts at `f64::MIN` and moves only on a strict `>`, so
   * when even the best trial ends at `f64::MIN` the key stays empty.
   */
  method VigSolve(ct: seq<int>, shiftInc: int, score: seq<int> -> F64,
                  decryptOne: (int, int) -> int, getShift: (seq<int>, int, int, seq<int>) -> int)
    returns (bestKey: seq<int>, ghost trials: seq<Trial>)
    requires shiftInc > 0
    ensures |ct| == 0 ==> bestKey == []
    ensures |bestKey| <= MinInt(KeyLenMaxTest, |ct|) && Shifts(bestKey, shiftInc)
    ensures |trials| == MinInt(KeyLenMaxTest, |ct|) && TrialsShaped(trials, shiftInc)
    ensures TrialsRun(Env(ct, shiftInc, score, decryptOne, getShift), trials)
    ensures |ct| > 0 ==> exists j :: FirstMax(trials, j) && bestKey == if FinalScore(trials[j]) > F64Min then trials[j].key else []
  {
    ghost var e := Env(ct, shiftInc, score, decryptOne, getShift);
    var bestScore := F64Min;
    bestKey := [];
    var plaintext := new int[|ct|](_ => 0);
    assert plaintext[..] == Zeros(|ct|);
    trials := [];
    ghost var best := 0;
    for keyLen := 1 to MinInt(KeyLenMaxTest, |ct|) + 1
      invariant |trials| == keyLen - 1 && Solving(e, trials, plaintext[..], best, bestScore, bestKey)
    {
      ghost var pt := plaintext[..];
      var key, currScore, sweeps, path := ClimbKeyLen(plaintext, ct, shiftInc, score, decryptOne, getShift, keyLen);
      var t := Trial(key, sweeps, path);
      SolvingSnoc(e, trials, pt, best, bestScore, bestKey, t);
      if currScore > bestScore {
        bestScore := currScore;
        bestKey := key;
        best := |trials|;
      }
      trials := trials + [t];
    }
    KeptTrialKey(trials, best, bestScore, bestKey, shiftInc);
  }
}
